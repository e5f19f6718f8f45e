# dominator, the reconciliation core

dominator deploys Docker containers described in a Python or YAML
configuration onto ships (Docker hosts). This project models its core in
Dafny and proves properties of the model.

The core is the reconciliation engine. It decides whether a declared
container matches the one the Docker daemon runs, and it drives the
container's lifecycle from that verdict. A few small pure helpers sit
around it. The modules follow the repository's files:

- `Differ` (differ.dfy) is the current differencer of
  `dominator/utils/__init__.py`. It compares a declared container with
  Docker's inspect record and returns an ordered list of
  `(key path, (expected, actual))` records.
- `LegacyDiffer` (legacy_differ.dfy) is the older differencer of
  `dominator/utils.py`, which nests its results in groups. It also holds
  `getrepo`.
- `Entities` (entities.dfy) models `dominator/entities/__init__.py`:
  - `Image.getfullrepository`, `inspect` and `getenv`;
  - the canonical description a `SourceImage` tag is hashed from;
  - the `Container` class, whose `id` and `status` fields are updated by
    `check`, `stop`, `remove`, `start`, `create`, `run` and `execute`.
- `Runtime` (runtime.dfy) is the Docker daemon of a ship, the environment
  those methods act on. It is a class holding:
  - named containers with an id, a status and their creation
    specification;
  - the image references it holds;
  - what a pull of a tag would bring.

  Its calls answer 404 for an unknown image or container, and 409 for a
  name in use or for removing a running container without force. Every
  call is logged in a ghost trace, so the order of calls can be stated.
- `Commands` (commands.dfy) models the click commands of
  `dominator/actions/__init__.py`: `filterbyname`, the `image` group,
  `validate_loglevel`, `literal_str_representer`, `print_diff`, and the
  `stop`, `restart`, `remove`, `status` and `exec` commands.
- `Cli` (cli.dfy) models the older docopt front end
  `dominator/actions.py`: `load`, `run`, `_ps`, `run_container`, `status`,
  the ship loop of `deploy`, and `pythonize_arg`.
- `Lines` (lines.dfy) models `docker_lines` and `lines`, the framing loop
  that appears three times in the source. The copies differ in how a chunk
  of bytes is decoded, so the decoder is a parameter.
- `Config` (settings.dfy) models the `Settings` class, with dotted-path
  `get` and `set` over nested sections.
- `Sorting` (sorting.dfy) models `makesorted`, which is `sorted` by a
  string key.
- `Dicts`, `Text`, `Values` and `Wrappers` supply Python dictionaries,
  string operations, scalars, and `Result` with the Python exceptions.

Python dictionaries are insertion ordered. The differencers' output order
depends on that order, so dictionaries are association lists (`Dicts.Dict`).
Exceptions are the `Err` side of a `Result`.

The two differencers, the entities and the two front ends are written
against different versions of the container object, so each is modelled
against its own input shape:

- `utils/__init__.py` reads `doors`, `dockername`, `network_mode`, `user`,
  `privileged` and `fullpath`;
- `utils.py` and `entities/__init__.py` use `ports`, `extports`,
  `portproto` and `getpath`;
- `actions.py` gives containers a repository and a tag instead of an
  image.

The verdict that `Container.run` takes from the differencer is abstracted
as `Entities.SameAsDeclared`. The running container counts as unchanged
when the daemon's record of its creation specification equals what the
declaration would create.

## Model

| member | source | states |
|---|---|---|
| Differ.CompareValues | dominator/utils/__init__.py:223-225 | no record exactly when the values are equal under Python's `==`; otherwise the single record `(key, (expected, actual))` |
| Differ.ActualEntry | dominator/utils/__init__.py:162-166 | what one variable of the running container yields is reported under `('env', name)` |
| Differ.ExtraOrChanged | dominator/utils/__init__.py:162-166 | the first loop reports only variables of the running container |
| Differ.Missing | dominator/utils/__init__.py:168-170 | the second loop reports only declared variables that the running container lacks |
| Differ.CompareEnvAt | dominator/utils/__init__.py:159-170 | for any variable: only in actual gives `('', v or '""')`; in both gives one record `(expected, v or '""')` iff `str(expected)` differs from the running text; only in expected gives `(str(v) or '""', '')`; nothing otherwise |
| Differ.CompareEnvEmpty | dominator/utils/__init__.py:159-170 | `compare_env` is empty iff both environments hold the same variables and each running value is `str()` of the declared one, whatever their order |
| Differ.NumberMatchesItsText | dominator/utils/__init__.py:165 | a variable declared as the number `i` and running as its text gives no record |
| Differ.Portspecs | dominator/utils/__init__.py:176-180 | the port specs the loops match against, one per door, in order |
| Differ.DoorDiffEmpty | dominator/utils/__init__.py:177-185 | one door reports nothing iff its spec is published on its declared host port |
| Differ.DoorDiffsEmpty | dominator/utils/__init__.py:176-185 | the first loop reports nothing iff every door is published on its host port |
| Differ.UndeclaredDiffsEmpty | dominator/utils/__init__.py:187-192 | the second loop reports nothing iff every published port matches some door's spec |
| Differ.ComparePortsEmpty | dominator/utils/__init__.py:173-192 | `compare_ports` is empty iff every door is published on its host port and no undeclared port is published |
| Differ.UndeclaredPortReported | dominator/utils/__init__.py:187-192 | a published `port/proto` no door declares yields `(('ports',), ('', port))`, with the text before the first '/' |
| Differ.VolumeAt | dominator/utils/__init__.py:200-205 | the declared volume matched for a mount point: none iff no volume has that destination, else one mounted there |
| Differ.VolumeDiffsEmpty | dominator/utils/__init__.py:205-215 | a matched mount reports nothing iff the host path, the files and the read-only flag all agree |
| Differ.WrongPathHidesFiles | dominator/utils/__init__.py:209-215 | a wrong host path is reported and the file comparison is skipped; the read-only flag is still compared |
| Differ.MountDiffsEmpty | dominator/utils/__init__.py:198-215 | the first loop is empty iff each mount is either a declared volume that agrees, or an undeclared anonymous `/var/lib/docker/vfs/dir` mount |
| Differ.UnmountedDiffsEmpty | dominator/utils/__init__.py:217-220 | the second loop is empty iff every declared volume is mounted |
| Differ.CompareVolumesEmpty | dominator/utils/__init__.py:195-220 | `compare_volumes` is empty iff both loops are |
| Differ.SplitImageAtLastColon | dominator/utils/__init__.py:231-233 | the inspect image is cut at its last ':'; the id holds no ':'; without a ':' the repository is empty |
| Differ.CompareFieldsAt | dominator/utils/__init__.py:235-244 | each identity field yields at its own key exactly what `compare_values` yields for it |
| Differ.FieldsElsewhere | dominator/utils/__init__.py:235-244 | no identity record appears under a key that is not a field's |
| Differ.CompareFieldsEmpty | dominator/utils/__init__.py:235-244 | the identity part is empty iff every field's values are equal |
| Differ.IdentityFieldReported | dominator/utils/__init__.py:235-244 | each of the seven identity fields is reported once, exactly when its expected and actual values differ |
| Differ.ExpectedEnvOverlay | dominator/utils/__init__.py:252-253 | the expected environment is the image's (as strings), overridden by the container's declared values, which may be of any scalar type |
| Differ.GatedInOrder | dominator/utils/__init__.py:246-254 | the gated part holds only command and environment records, in that order |
| Differ.NullCommandFails | dominator/utils/__init__.py:246-250 | with the image ids equal, a null running `Cmd` (or a failing image `getcommand()` asked for an empty declared command) fails the comparison, with TypeError once the image's config was found; with other ids the command is never looked at |
| Differ.NullEnvFails | dominator/utils/__init__.py:251-253 | with the image ids equal and the command compared, a null running `Env` or a null image `Env` fails the comparison with TypeError |
| Differ.OtherImageSkipsCommandAndEnv | dominator/utils/__init__.py:246 | when the running image id is not the declared one, no command or environment record is reported |
| Differ.ContainerDiffsInOrder | dominator/utils/__init__.py:228-257 | records come section by section: identity fields, command, environment, ports, volumes |
| Differ.AllRankSorted | dominator/utils/__init__.py:228-257 | a run of records from one section is in section order |
| Differ.AppendSorted | dominator/utils/__init__.py:228-257 | a later section appended after an earlier one keeps the section order |
| Differ.FieldsRank | dominator/utils/__init__.py:235-244 | identity records belong to the first section |
| Differ.ExtraOrChangedRank | dominator/utils/__init__.py:162-166 | environment records belong to the environment section |
| Differ.MissingRank | dominator/utils/__init__.py:168-170 | environment records belong to the environment section |
| Differ.DoorDiffsRank | dominator/utils/__init__.py:176-185 | port records belong to the ports section |
| Differ.UndeclaredDiffsRank | dominator/utils/__init__.py:187-192 | port records belong to the ports section |
| Differ.MountDiffsRank | dominator/utils/__init__.py:198-215 | volume records, file comparisons included, belong to the volumes section |
| Differ.UnmountedDiffsRank | dominator/utils/__init__.py:217-220 | volume records belong to the volumes section |
| Differ.CompareContainerEmpty | dominator/utils/__init__.py:228-257 | `compare_container` is empty iff identity fields, the gated command and environment, ports and volumes all report nothing |
| LegacyDiffer.GetRepoPrefixes | dominator/utils.py:116-119 | the namespace is added exactly when the name has no '/' and a namespace is set; the result is idempotent |
| LegacyDiffer.CompareEnv | dominator/utils.py:122-133 | running variables come first, then missing ones: every triple of the first loop is keyed by a running variable, every triple of the second by a declared variable that is not running |
| LegacyDiffer.CompareEnvEmpty | dominator/utils.py:122-133 | empty iff every running variable is declared with exactly its text as a string, and every declared variable is running (`!=` applies no `str()`) |
| LegacyDiffer.MatchesCurrentOnText | dominator/utils.py:122-133 | when every declared value is a string, the triples are the current `compare_env` records relabelled, one for one and in order |
| LegacyDiffer.NumberDiffersFromItsText | dominator/utils.py:128-129 | a variable declared as the number `i` and running as its text is reported as changed, where the current differencer reports nothing |
| LegacyDiffer.Specs | dominator/utils.py:139-144 | each declared port's `'port/proto'`, with proto defaulting to tcp |
| LegacyDiffer.DeclaredItemsEmpty | dominator/utils.py:139-153 | the first loop is empty iff every declared port is bound on its host port |
| LegacyDiffer.UndeclaredItemsEmpty | dominator/utils.py:155-162 | the second loop is empty iff every binding matches a declared spec |
| LegacyDiffer.ComparePortsEmpty | dominator/utils.py:136-162 | `compare_ports` is empty iff both loops are |
| LegacyDiffer.UnboundPortReported | dominator/utils.py:146-149 | a declared port without a binding yields `name -> [int, ext, proto]`, each with an empty actual |
| LegacyDiffer.UnpublishedPortFails | dominator/utils.py:151 | a declared port whose binding list is null makes `compare_ports` raise TypeError |
| LegacyDiffer.ChangedLines | dominator/utils.py:211 | keeps exactly the delta lines that do not start with two spaces |
| LegacyDiffer.CompareFiles | dominator/utils.py:200-211 | every reported file carries only lines that do not start with two spaces |
| LegacyDiffer.CompareFilesEmpty | dominator/utils.py:200-211 | empty iff every file's host content (empty when missing) equals its expected data |
| LegacyDiffer.MissingFileIsEmpty | dominator/utils.py:204-209 | a missing file is reported iff its expected data is not empty |
| LegacyDiffer.VolumeAt | dominator/utils.py:170 | the declared volume at a mount point: none iff no volume has that destination |
| LegacyDiffer.CollectMountItem | dominator/utils.py:169-191 | the loop body that appends to `diffs` computes the sub-items of one mount |
| LegacyDiffer.CompareVolumes | dominator/utils.py:165-197 | the method with its `diffs` lists computes the older `compare_volumes` |
| LegacyDiffer.MountItemsErrStays | dominator/utils.py:168-169 | a mount without a read-only flag stops the comparison with that error |
| LegacyDiffer.CollectUnmounted | dominator/utils.py:193-197 | each unmounted declared volume yields its `path` and `ro` entries |
| LegacyDiffer.UndeclaredMountReported | dominator/utils.py:171-174 | an undeclared vfs mount is ignored; any other yields `dest -> [path, ro]` |
| LegacyDiffer.WrongPathHidesFiles | dominator/utils.py:180-188 | a wrong path is the first sub-item and hides the files; `ro` is reported iff it differs |
| LegacyDiffer.ExpectedEnvOverlay | dominator/utils.py:229 | the expected environment is the image's, overridden by the container's |
| LegacyDiffer.ImageMustHaveOneColon | dominator/utils.py:217 | an image name with no ':' or with two cannot be unpacked and fails |
| LegacyDiffer.ContainerHasNoEmptyGroup | dominator/utils.py:229-234 | no group at any depth of the result is empty |
| LegacyDiffer.DeclaredItemsShape | dominator/utils.py:146-153 | declared-port groups are never empty |
| LegacyDiffer.UndeclaredItemsShape | dominator/utils.py:158-162 | undeclared-port groups are never empty |
| LegacyDiffer.VolumeItemsShape | dominator/utils.py:178-191 | a matched mount's sub-items hold no empty group |
| LegacyDiffer.MountItemsShape | dominator/utils.py:168-191 | a mount is emitted only with a non-empty sub-item list |
| LegacyDiffer.UnmountedItemsShape | dominator/utils.py:193-197 | unmounted-volume groups are never empty |
| LegacyDiffer.CompareContainerEmpty | dominator/utils.py:214-234 | empty iff the image is `repository:id`, `Cmd` and `Env` are lists, and every field, the environment, ports and volumes agree |
| LegacyDiffer.NullListFails | dominator/utils.py:222-230 | once the image name unpacks, a null running `Cmd` or `Env` fails `compare_container` with TypeError |
| LegacyDiffer.EnvPairsUnique | dominator/utils.py:230 | the environment read back from `NAME=value` strings has no key twice |
| Lines.DockerLines | dominator/utils/__init__.py:260-266 | the lines produced are exactly the complete lines of the text the chunks decode to, each chunk decoded on its own; a chunk that fails to decode ends the loop with its error |
| Lines.IgnoringDecoderReadsAll | dominator/utils/__init__.py:263 | with `errors='ignore'` decoding never fails, so every chunk is read |
| Lines.FailureHidesRest | dominator/utils.py:300-306 | with strict decoding, nothing after a chunk that fails to decode is ever read, and the failure is raised |
| Lines.LinesAndTail | dominator/utils/__init__.py:264-265 | the produced lines and the buffer left over rebuild the text, and none of them holds a newline |
| Lines.UnterminatedTailIsDropped | dominator/utils/__init__.py:264-266 | a fragment without a newline after the last line is never produced and stays in the buffer |
| Config.Settings.constructor | dominator/utils/__init__.py:301-302 | starts with an empty configuration |
| Config.Settings.Get | dominator/utils/__init__.py:320-345 | the walking loop returns what the path lookup specifies, including the conversion to `type_`, or to the type of the default when no `type_` is given |
| Config.Settings.Set | dominator/utils/__init__.py:350-358 | the loop creates the missing sections, stores the value, and leaves the configuration as the assignment specifies |
| Config.EmptyPathIsWhole | dominator/utils/__init__.py:323-330 | a path of only dots (`''` included) returns the whole configuration, converted to the default's type when the default has one |
| Config.SkipEmpty | dominator/utils/__init__.py:329-330 | empty segments leave the walk where it is |
| Config.MissingKeyUsesDefault | dominator/utils/__init__.py:339-345 | a missing key raises KeyError without a default and returns the default, unconverted, with one |
| Config.FoundValueTakesDefaultType | dominator/utils/__init__.py:323-324 | a string found where the default is an integer is read with `int()`, and fails with ValueError when it is no number |
| Config.NumberTextReadsBack | dominator/utils/__init__.py:332-337 | the text of a number, found where the default is an integer, gives that number back |
| Config.ConvertGivesKind | dominator/utils/__init__.py:332-337 | a conversion that succeeds gives a value of the requested type, and a value already of that type is returned unchanged |
| Config.GetAfterSet | dominator/utils/__init__.py:350-358 | after a successful `set(path, v)`, walking the path gives `v` |
| Config.SetKeepsOtherKeys | dominator/utils/__init__.py:350-358 | `set` leaves every other top-level entry as it was |
| Config.SetThroughScalarFails | dominator/utils/__init__.py:354-357 | a path through a scalar fails with TypeError |
| Sorting.MakeSortedSortsAndPermutes | dominator/utils/__init__.py:129-135 | the result is sorted by the key and is a permutation of the input |
| Sorting.MakeSortedOfSorted | dominator/utils/__init__.py:129-135 | sorting input that is already sorted changes nothing |
| Sorting.SortIgnoresOrder | dominator/utils/__init__.py:129-135 | with distinct keys, the result does not depend on the input order |
| Sorting.MakeSortedStable | dominator/utils/__init__.py:129-135 | the sort is stable: the elements with any one key keep their input order |
| Commands.FilterByName | dominator/actions/__init__.py:580-586 | sorted by full name, holding each object exactly as often as the input does when its name matches, else never |
| Commands.FilterByNameIgnoresOrder | dominator/actions/__init__.py:580-586 | with distinct full names, the selection does not depend on the shipment's order |
| Commands.ImageGroup | dominator/actions/__init__.py:400-408 | keeps exactly the source-built images whose repository matches, each exactly as often as the shipment holds it |
| Commands.ImageGroupInOrder | dominator/actions/__init__.py:406-407 | the group of a shipment split in two is the first part's group followed by the second's, so build order is kept |
| Commands.ImageGroupOfOne | dominator/actions/__init__.py:406-407 | a single image is kept iff it is built from source and its repository matches |
| Commands.LoglevelNumber | dominator/actions/__init__.py:30-31 | the text of any integer, negative ones included, is taken as the level it spells |
| Commands.LoglevelDefault | dominator/actions/__init__.py:28-34 | the option's default, 'warn', is level 30 |
| Commands.LoglevelNeverBadParameter | dominator/actions/__init__.py:28-36 | as written, every failure is a KeyError for the upper-cased name, never BadParameter |
| Commands.UnknownLoglevel | dominator/actions/__init__.py:28-36 | 'verbose' fails with KeyError('VERBOSE') |
| Commands.CheckedLoglevel | dominator/actions/__init__.py:28-36 | as intended: accepts exactly numbers and known level names, agrees with the source wherever it succeeds, and otherwise raises BadParameter |
| Commands.LiteralStrRepresenter | dominator/actions/__init__.py:23-24 | a str scalar with the data itself; the literal style '\|' iff the string holds a line break |
| Commands.LineColor | dominator/actions/__init__.py:304 | red iff '- ', green iff '+ ', blue iff '? '; never yellow |
| Commands.PrintRecord | dominator/actions/__init__.py:299-311 | a list prints one coloured line per element; a pair prints actual, then expected; any other shape fails the assertion |
| Commands.PrintDiff | dominator/actions/__init__.py:297-311 | no failure iff every record is well shaped |
| Commands.PrintDiffOfDiffs | dominator/actions/__init__.py:297-311 | a difference list from the differencer prints completely, one actual/expected line per record |
| Commands.PrintDiffStopsAtMalformed | dominator/actions/__init__.py:297-311 | the lines of the records before the first malformed one are printed, then the assertion fails |
| Commands.NotFoundIsDown | dominator/actions/__init__.py:255 | a container that was never found is not running |
| Commands.StopCommand | dominator/actions/__init__.py:252-256 | checks, and stops the container only when it runs; afterwards it is not running, and nothing else changes |
| Commands.HaltedThenRetired | dominator/actions/__init__.py:219-224 | stopping and then clearing the name leaves the daemon as clearing alone would, with the same calls, and never keeps the container |
| Commands.Restart | dominator/actions/__init__.py:219-224 | stops a running container, then runs: a fresh container replaces the old one and is running |
| Commands.RemoveCommand | dominator/actions/__init__.py:262-265 | checks, then removes: 404 when the name is unknown, 409 when it runs, otherwise that container is gone |
| Commands.StatusColor | dominator/actions/__init__.py:283-290 | red iff not running; green iff running with an empty diff; yellow iff running with a non-empty one |
| Commands.StatusCommand | dominator/actions/__init__.py:280-290 | red iff no running container holds the name; green iff the running one is what was declared |
| Commands.Exec | dominator/actions/__init__.py:236-246 | executes the container (any holder of the name evicted, created, started, stopped); without `--keep` it is then force-removed, with `--keep` it stays, stopped |
| Commands.RemoveForced | dominator/actions/__init__.py:243-244 | a forced removal of the container the object names, even a running one |
| Entities.FullRepository | dominator/entities/__init__.py:116-117 | the repository alone without a registry, else `registry/repository` |
| Entities.FullRepositoryParts | dominator/entities/__init__.py:116-117 | splitting the full repository at the first '/' gives the registry and the repository back |
| Entities.InspectConfig | dominator/entities/__init__.py:170-178 | prefers "config", then "Config"; RuntimeError iff neither is present |
| Entities.ImageCommand | dominator/entities/__init__.py:184-185 | `getcommand` succeeds iff the config is found and its `Cmd` is a list, and then is the words joined by spaces; a null `Cmd` is a TypeError |
| Entities.NullEnvFails | dominator/entities/__init__.py:187-188 | a null `Env` fails `getenv` with TypeError |
| Entities.GetEnvRoundTrip | dominator/entities/__init__.py:187-188 | an environment the image was built with reads back as itself |
| Entities.NormalMembers | dominator/entities/__init__.py:216-225 | an object's members keep their order, with their values in normal form |
| Entities.NormalObjectIgnoresOrder | dominator/entities/__init__.py:216-225 | with `sort_keys`, a dictionary's normal form does not depend on its insertion order |
| Entities.EnvOrderKeepsTag | dominator/entities/__init__.py:215-228 | the order in which `env` was filled in does not change the tag |
| Entities.FilesOrderKeepsTag | dominator/entities/__init__.py:215-228 | the order in which `files` was filled in does not change the tag |
| Entities.MemberChangesNormal | dominator/entities/__init__.py:216-225 | descriptions that differ in one member's normal form have different normal forms |
| Entities.ScriptsOrderMatters | dominator/entities/__init__.py:219 | reordering the build scripts changes the canonical description |
| Entities.VolumesOrderMatters | dominator/entities/__init__.py:222 | reordering the declared volumes changes the canonical description |
| Entities.PortsOrderMatters | dominator/entities/__init__.py:223 | reordering the exposed ports changes the canonical description |
| Entities.GetPort | dominator/entities/__init__.py:444-445 | KeyError iff the name is not a declared port; otherwise the external port if given, else the port |
| Entities.StartPublishesGetPort | dominator/entities/__init__.py:429-432 | a started container publishes each port under `'port/proto'` at `('::', getport(name))` |
| Entities.Renders | dominator/entities/__init__.py:370-371 | one render per volume, in declaration order |
| Entities.NamedRecord | dominator/entities/__init__.py:309-312 | the record `check` finds for a name is the daemon's container with that name, or none |
| Entities.HaltThenEvict | dominator/entities/__init__.py:414-420 | stopping the holder of a name when it runs and then removing it is clearing the name |
| Entities.CreateChanges | dominator/entities/__init__.py:367-384 | one `create` changes containers only by its successful create call |
| Entities.RetireChanges | dominator/entities/__init__.py:414-420 | a stop when running, then a remove, are both container changes |
| Entities.Cleared | dominator/entities/__init__.py:407-420 | at the name's index, clearing removes that entry; it is stopped first only if up; the container is kept iff it is up and as declared |
| Entities.Container.constructor | dominator/entities/__init__.py:263-278 | the declaration as given, hostname defaulting to `'<name>-<ship>'`, id '' and status 'not found' |
| Entities.Container.SetState | dominator/entities/__init__.py:283-293 | every declared field comes from the state (what `__getstate__` keeps); id '' and status 'not found' |
| Entities.Container.GetVolume | dominator/entities/__init__.py:295-300 | a volume with that name, or RuntimeError iff there is none |
| Entities.Container.Check | dominator/entities/__init__.py:306-319 | takes Id and Status from the record, each kept when absent; with no record, from the daemon's container with that name, else '' and 'not found' |
| Entities.Container.Stop | dominator/entities/__init__.py:357-360 | the daemon stops the container; status 'stopped', id kept, no longer running; in the daemon a running container exits and any other keeps its status (Docker's 304 Not Modified); 404 for an unknown id |
| Entities.Container.Remove | dominator/entities/__init__.py:362-365 | the daemon removes the container; id '' and status 'not found'; 409 for a running one without force |
| Entities.Container.Start | dominator/entities/__init__.py:425-436 | the daemon starts the container with the port bindings and binds derived from the declaration; status 'Up' |
| Entities.Container.RenderVolumes | dominator/entities/__init__.py:370-371 | every volume is rendered, in order, before anything else |
| Entities.Container.Create | dominator/entities/__init__.py:367-385 | renders the volumes, then creates; on 404 it pulls once and retries once; any other failure propagates; 409 only for a taken name |
| Entities.Container.Obtain | dominator/entities/__init__.py:373-382 | the create call, then on 404 the pull and the one retry |
| Entities.Container.Attempt | dominator/entities/__init__.py:387-399 | one create call: 404 without the image, 409 for a taken name, else a new container that is not running |
| Entities.Container.Run | dominator/entities/__init__.py:401-423 | keeps a running container that is as declared, with no change; otherwise retires the holder of the name (stop if up, remove), creates and starts |
| Entities.Container.Establish | dominator/entities/__init__.py:402-421 | the create, and on 409 the recovery, before the start |
| Entities.Container.Launch | dominator/entities/__init__.py:423 | starts the container just created, which is then running |
| Entities.Container.Recover | dominator/entities/__init__.py:407-421 | keeps iff the found container runs what was declared; otherwise replaces it |
| Entities.Container.Replace | dominator/entities/__init__.py:409-421 | clears the name (stop when running, remove), then creates anew |
| Entities.Container.Discard | dominator/entities/__init__.py:409-420 | stops the container when it runs, then removes it |
| Entities.Container.Execute | dominator/entities/__init__.py:322-343 | creates (on 409 evicting whatever holds the name), starts, and on the way out stops the container |
| Entities.Container.Prepare | dominator/entities/__init__.py:325-332 | the create of `execute`; on a clash the holder is force-removed and the create repeated |
| Entities.Container.Evict | dominator/entities/__init__.py:330-331 | `check`, then a forced `remove`: the holder of the name goes, running or not |
| Runtime.ListingFindsByName | dominator/entities/__init__.py:309-312 | the first listed container named `name` exists iff the daemon has one, and carries its id and status |
| Cli.Target | dominator/actions.py:160-163 | a name without `.py:` calls `main`; too many colons fail with ValueError |
| Cli.Load | dominator/actions.py:155-169 | stdin iff no name; Python modules end in `.py`, YAML files in `.yaml`; failures are ValueError or RuntimeError |
| Cli.LoadPlain | dominator/actions.py:163-169 | a `.py` file calls `main`; a `.yaml` file is read; any other name is an unknown file type |
| Cli.LoadFunction | dominator/actions.py:160-165 | `'<file>.py:<function>'` calls that function of that module |
| Cli.LoadTooManyColons | dominator/actions.py:160-161 | a second colon cannot be unpacked |
| Cli.Ps | dominator/actions.py:69-70 | exactly the listed containers whose first name, minus its '/', is `name`; IndexError iff an entry has no names |
| Cli.ContainersOfAll | dominator/actions.py:104 | the listing with `all=True` is the whole daemon listing |
| Cli.ContainersOf | dominator/actions.py:70 | the listing holds exactly the daemon's containers that are up (all of them with `all=True`), each shown with its name prefixed by '/' |
| Cli.PsContainers | dominator/actions.py:69-70 | on a daemon, `_ps` finds the one container with that name, or none |
| Cli.AfterPull | dominator/actions.py:96-97 | a pull happens when asked or when the repository has no image; it fails iff the tag is unknown; afterwards the image is there |
| Cli.PublishedPort | dominator/actions.py:123 | each port is published as `'port/tcp'` on the same host port |
| Cli.PublishedBinding | dominator/actions.py:123 | every published binding is some port's own port, over tcp |
| Cli.VacatedFrees | dominator/actions.py:99-107 | after the stop and the remove, no container holds the name |
| Cli.RunLeavesOne | dominator/actions.py:99-125 | after `run_container`, the new container is the one that holds the name, and it runs |
| Cli.PullStep | dominator/actions.py:96-97 | the pull, if needed: DockerException for an unknown tag; otherwise the images it brings |
| Cli.StopRunning | dominator/actions.py:99-102 | stops the running container with that name, if any |
| Cli.RemoveListed | dominator/actions.py:104-107 | removes the container with that name, if any; 409 when it runs |
| Cli.Clear | dominator/actions.py:99-107 | stop then remove: the name is free, and the calls are stop when running, then remove |
| Cli.Launch | dominator/actions.py:109-125 | creates and starts: 404 without the image, 409 for a taken name, else a new running container |
| Cli.Follow | dominator/actions.py:127-141 | without detach the container is stopped, and removed when asked |
| Cli.RunContainer | dominator/actions.py:73-141 | RuntimeError for a remote ship with nothing changed; otherwise pull, stop, remove, create, start and follow, in that order |
| Cli.SelectionExact | dominator/actions.py:64-66 | acts on exactly the local containers with the given name, or all local ones, detached, when none is given |
| Cli.Run | dominator/actions.py:53-66 | runs exactly the selected containers, in order; a failure stops the loop after a prefix |
| Cli.VisitShips | dominator/actions.py:189-190 | visits each distinct ship once, and only the named one when a name is given; the ship loop of `deploy` (lines 224-225) is the same |
| Cli.OnShip | dominator/actions.py:194 | exactly the containers on that ship |
| Cli.DaemonStatus | dominator/actions.py:195-199 | 'not found' iff the daemon has no container with that name; otherwise its status |
| Cli.ShowShip | dominator/actions.py:192-199 | one line for the ship, then one per container; IndexError from a nameless entry |
| Cli.ShipLinesFail | dominator/actions.py:195 | a nameless listing entry fails with IndexError |
| Cli.ShipLinesError | dominator/actions.py:195 | every failure is IndexError |
| Cli.Status | dominator/actions.py:183-199 | visits each selected ship once; succeeds iff the report over those ships does, and then prints exactly its lines |
| Cli.ReportFail | dominator/actions.py:189-199 | a failing ship fails the whole report |
| Cli.PythonizeArg | dominator/actions.py:299-300 | the result holds no '<' and no '>' |
| Cli.PythonizeOption | dominator/actions.py:299-300 | `--name` and `<name>` both become `name` |
| Cli.PythonizeJoinsDashes | dominator/actions.py:299-300 | removing '<' and '>' after '--' can form a new '--': `-<-` gives `--` |
| Dicts.GetPut | dominator/utils/__init__.py:356-358 | after `d[k] = v`, `k` holds `v` and every other key is unchanged |
| Dicts.GetUpdate | dominator/utils/__init__.py:252-253 | after `update(e)`, a key holds its last value in `e`, or else its old value |
| Dicts.EnvRoundTrip | dominator/utils/__init__.py:254 | reading back the `NAME=value` list of an environment gives the environment |
| Text.JoinSplit | dominator/utils/__init__.py:233 | joining the pieces of a split with the separator gives the string back |
| Text.SplitJoin | dominator/utils/__init__.py:325 | splitting a join of separator-free pieces gives the pieces back |
| Text.SplitCount | dominator/utils/__init__.py:231 | a split has one piece more than there are separators |
| Text.ParseDecimal | dominator/actions/__init__.py:31 | `int(str(n)) == n` |
| Text.ParseIntText | dominator/actions/__init__.py:31 | `int(str(i)) == i` for every integer |
| Text.PathJoin | dominator/entities/__init__.py:468-469 | `os.path.join(a, b)` ends with `b`, and when `b` is relative it starts with `a` and adds at most one separator |

## Left out

- Logging: structlog and `logging` loggers, `addcontext`, formatters and
  messages. These have no effect on results.
- Attach and log streaming: `execute`'s attach, `logs`, and the
  KeyboardInterrupt handling in `run_container` and `logs`. These are
  blocking I/O.
  - `Entities.Container.Execute` models the create, start and final stop.
  - `Cli.Follow` models the stop and remove after following.
- Filesystem effects are not modelled: `ConfigVolume.render`,
  `BaseFile.dump`/`load`, `Settings.load`, `expanduser`, and the
  config-volume rendering loop in `run_container` (dominator/actions.py
  lines 84-94).
  - `Entities.Container.RenderVolumes` records one render event per
    volume, in order.
  - In `Cli`, volume host paths are given already resolved.
- Serialisation libraries: `yaml.load`/`dump`, `json.dumps` string escaping,
  and mako templates.
  - `load_python` and `load_yaml` are I/O; `Cli.Load` returns which of them
    is called, with what.
  - `Entities.Dump` writes strings without escaping.
- SHA-256 and base64 in `gettag` are the `hash` and `digest` function
  parameters, so no property of `Tag` depends on them. Collision freedom
  ("any change changes the tag") cannot be stated. The order results are
  therefore stated on the canonical description.
- `difflib.Differ` is the `delta` parameter of `LegacyDiffer`. `fnmatch`
  translation and `re.match` are the `translate` and `rematch` parameters
  of `Commands`.
- The Docker daemon's own behaviour is the `Runtime.Daemon` class.
  - The streamed pull (`Image.pull`, `_streamoperation`) is
    `Runtime.Daemon.Pull`. An unknown tag fails with DockerException.
  - `pull_repo` of dominator/actions.py is not part of this model; it is
    taken to pull by tag in the same way.
  - `docker.Client` connection errors are not modelled.
- `Image.getid`, `gettags` and `utils.cached` are left out. The image id is
  a field, and pulling is by tag through the daemon's registry map.
- The `foreach` decorator's loop is left out. Each command is modelled for
  one container; the loop only adds a logging context.
- `deploy_to_ship` is I/O and is left out. `Cli.VisitShips` models the
  ship loop of `deploy`.
- `status` with `--showdiff`, and all column widths and colours of printed
  text, are left out. `Commands.PrintDiff` returns the lines and colours,
  not the formatted text.
- `Commands.StatusCommand`: the differencer's verdict is abstracted as
  `Entities.SameAsDeclared`, equality of the creation specification. The
  full `compare_container` is `Differ.CompareContainer`.
- `Entities.Container.Run`: the differencer's verdict is abstracted the same
  way.
- `Cli.Status`, `Cli.ShowShip`: the daemon listing of each ship is a function
  parameter, because `_connect_to_ship` opens a network connection.
- `Cli.VisitShips`: ships are compared by value. The source builds a `set`
  of ship objects, which compares by identity unless `Ship` defines
  equality.
- `Cli.PythonizeArg`: does not promise that no '--' remains. Removing '<'
  and '>' after the dashes can join two single dashes
  (`Cli.PythonizeJoinsDashes`). For docopt names, `Cli.PythonizeOption`
  shows the bare name results.
- `Commands.LoglevelNumber`: numbers are an optional sign and decimal
  digits. Python's `int()` also accepts surrounding whitespace and
  underscores between digits; those are not modelled.
- `Commands.UnknownLoglevel`: `Text.Upper` maps only the ASCII letters.
  Python's `str.upper` maps every cased letter, so a name such as
  'ınfo' (dotless i), which Python takes as INFO, is not accepted by the
  model.
- `Config.Settings.Get`: `int()` of a string has the same limits as above,
  and `str()` of a section (`Config.Repr`) does not escape quotes inside
  keys and strings. Conversion to any other type than int, str, bool and
  dict is not modelled.
- `Lines.DockerLines`: UTF-8 decoding itself is the `decode` parameter,
  with or without `errors='ignore'`; which bytes fail is not modelled.
- `Entities.VolumePath`: `Text.PathJoin` follows `os.path.join` for two
  parts; `expanduser` is not modelled (see filesystem effects above).
- `Cli.Run`: the failure case states only that a non-empty prefix of the
  selection ran.
- `Runtime.Daemon`: image removal, networks, `wait` and `inspect_image` are
  not modelled.
- `Image.gettarfile`, build, push and `SourceImage.__getstate__` rebuilds
  are left out. They produce archives and network traffic.
- Inventory lookups (conductor, nova, racktables) and memory lookups are
  left out. They are network and host calls.

## Findings

| source | as written | input that shows it | evidently intended | confidence | as-written member | corrected member |
|---|---|---|---|---|---|---|
| dominator/actions/__init__.py:28-36 | an unknown level name is looked up in `logging._nameToLevel`, which raises KeyError; only ValueError is turned into BadParameter | `--loglevel verbose` raises KeyError('VERBOSE') | an unknown name is rejected with click's BadParameter 'loglevel should be logging level name or number' | not executed | Commands.UnknownLoglevel | Commands.CheckedLoglevel |
