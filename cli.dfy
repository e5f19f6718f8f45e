/** The command-line actions of the older single-file front end: loading a
    configuration by file name, running containers on the local Docker
    daemon, listing their status per ship, and turning docopt option names
    into keyword arguments. Containers here carry a repository and a tag
    instead of an image, and ships say whether they are the local one. */
module Cli {
  import opened Wrappers
  import opened Text
  import opened Dicts
  import opened Sorting
  import opened Runtime
  import Entities

  datatype Ship = Ship(name: string, islocal: bool)

  /** A volume, with the host path `getpath` gives it already resolved. */
  datatype Volume = Volume(path: string, dest: string, ro: bool)

  datatype Container = Container(
    name: string,
    ship: Ship,
    repository: string,
    tag: string,
    memory: int,
    env: Dict<string, string>,
    ports: Dict<string, nat>,
    volumes: seq<Volume>)

  // ---------------------------------------------------------------------
  // load

  /** Where a configuration comes from: standard input as YAML, a function
      of a Python module, or a YAML file. */
  datatype Source = Stdin | PythonModule(file: string, func: string) | YamlFile(file: string)

  /** The file and the function a name asks for: `'<file>.py:<function>'`
      splits at its colon (two colons are too many to unpack); any other name
      is a file whose `main` is called. */
  function Target(name: string): (r: Result<(string, string)>)
    ensures !IsInfix(".py:", name) ==> r == Ok((name, "main"))
    ensures r.Err? ==> r.error.ValueError?
  {
    if IsInfix(".py:", name) then
      var parts := Split(name, ':');
      if |parts| == 2 then Ok((parts[0], parts[1]))
      else Err(ValueError("too many values to unpack (expected 2)"))
    else Ok((name, "main"))
  }

  /** `load`: no file name reads standard input; a `.py` file is imported
      and its function called; a `.yaml` file is read; any other name is
      refused. */
  function Load(filename: Option<string>): (r: Result<Source>)
    ensures filename.None? <==> r == Ok(Stdin)
    ensures r.Ok? && r.value.PythonModule? ==> EndsWith(r.value.file, ".py")
    ensures r.Ok? && r.value.YamlFile? ==> EndsWith(r.value.file, ".yaml") && !EndsWith(r.value.file, ".py")
    ensures r.Err? ==> r.error.ValueError? || r.error.RuntimeError?
  {
    match filename
    case None => Ok(Stdin)
    case Some(name) =>
      var target :- Target(name);
      var file := target.0;
      if EndsWith(file, ".py") then Ok(PythonModule(file, target.1))
      else if EndsWith(file, ".yaml") then Ok(YamlFile(file))
      else Err(RuntimeError("unknown file type " + file))
  }

  /** A name without a colon is a file: a Python one runs its `main`, a
      YAML one is read, and any other kind is refused with its name. */
  lemma LoadPlain(name: string)
    requires ':' !in name
    ensures EndsWith(name, ".py") ==> Load(Some(name)) == Ok(PythonModule(name, "main"))
    ensures !EndsWith(name, ".py") && EndsWith(name, ".yaml") ==> Load(Some(name)) == Ok(YamlFile(name))
    ensures !EndsWith(name, ".py") && !EndsWith(name, ".yaml") ==>
      Load(Some(name)) == Err(RuntimeError("unknown file type " + name))
  {
    MissingCharNotInfix(".py:", name, 3);
  }

  /** `'<file>.py:<function>'` calls that function of that file. */
  lemma LoadFunction(file: string, func: string)
    requires EndsWith(file, ".py") && ':' !in file && ':' !in func
    ensures Load(Some(file + ":" + func)) == Ok(PythonModule(file, func))
  {
    var name := file + ":" + func;
    var stem := file[..|file| - 3];
    assert name == stem + (".py:" + func) by {
      assert file == stem + ".py";
    }
    InfixOfPrefix(".py:", ".py:" + func);
    InfixOfConcat(".py:", stem, ".py:" + func);
    SplitAfterPiece(file, func, ':');
    SplitNoSeparator(func, ':');
    assert file + [':'] + func == name;
  }

  /** A name with `.py:` and a second colon cannot be unpacked. */
  lemma LoadTooManyColons(name: string)
    requires IsInfix(".py:", name) && multiset(name)[':'] >= 2
    ensures Load(Some(name)) == Err(ValueError("too many values to unpack (expected 2)"))
  {
    SplitCount(name, ':');
  }

  // ---------------------------------------------------------------------
  // _ps and the daemon's listings

  /** `_ps`: the listed containers whose first name, without its leading
      '/', is `name`, in listing order; an entry without names makes the
      comprehension raise IndexError. */
  function Ps(listing: seq<Listed>, name: string): (r: Result<seq<Listed>>)
    ensures r.Err? <==> exists i :: 0 <= i < |listing| && |listing[i].names| == 0
    ensures r.Err? ==> r.error == IndexError
    ensures r.Ok? ==> forall x :: x in r.value <==> x in listing && |x.names| > 0 && DropSlash(x.names[0]) == name
  {
    if |listing| == 0 then Ok([])
    else if |listing[0].names| == 0 then Err(IndexError)
    else
      var rest := Ps(listing[1..], name);
      assert forall i :: 1 <= i < |listing| ==> listing[i] == listing[1..][i - 1];
      assert listing == [listing[0]] + listing[1..];
      if rest.Err? then rest
      else Ok((if DropSlash(listing[0].names[0]) == name then [listing[0]] else []) + rest.value)
  }

  /** `containers()`: the running containers; `containers(all=True)`: all of them. */
  function ContainersOf(entries: seq<Entry>, all: bool): (r: seq<Listed>)
    ensures forall x :: x in r ==> |x.names| > 0
    ensures forall x :: x in r <==> exists i :: 0 <= i < |entries| && (all || IsUp(entries[i].status)) && x == Shown(entries[i])
  {
    if |entries| == 0 then []
    else
      var rest := ContainersOf(entries[1..], all);
      assert forall i :: 1 <= i < |entries| ==> entries[i] == entries[1..][i - 1];
      (if all || IsUp(entries[0].status) then [Shown(entries[0])] else []) + rest
  }

  /** How the daemon lists one container: its name with a leading '/'. */
  function Shown(e: Entry): Listed {
    Listed(["/" + e.name], e.id, e.status)
  }

  /** The full listing is the daemon's own. */
  lemma {:induction false} ContainersOfAll(entries: seq<Entry>)
    ensures ContainersOf(entries, true) == ListingOf(entries)
  {
    if |entries| > 0 {
      ContainersOfAll(entries[1..]);
      assert ListingOf(entries) == [ListingOf(entries)[0]] + ListingOf(entries[1..]);
    }
  }

  /** What `_ps` finds on a daemon whose names are distinct: the container
      holding the name, when it is listed at all. */
  function Named(entries: seq<Entry>, name: string, all: bool): seq<Listed> {
    match FindName(entries, name)
    case None => []
    case Some(n) => if all || IsUp(entries[n].status) then [Listed(["/" + name], entries[n].id, entries[n].status)] else []
  }

  lemma {:induction false} PsContainers(entries: seq<Entry>, name: string, all: bool)
    requires forall a, b :: 0 <= a < b < |entries| ==> entries[a].name != entries[b].name
    ensures Ps(ContainersOf(entries, all), name) == Ok(Named(entries, name, all))
  {
    if |entries| > 0 {
      var e := entries[0];
      var rest := entries[1..];
      DistinctTail(entries);
      PsContainers(rest, name, all);
      assert DropSlash("/" + e.name) == e.name;
      var head := if all || IsUp(e.status) then [Listed(["/" + e.name], e.id, e.status)] else [];
      assert ContainersOf(entries, all) == head + ContainersOf(rest, all);
      PsCons(head, ContainersOf(rest, all), name);
      if e.name == name {
        assert FindName(rest, name).None? by {
          forall i | 0 <= i < |rest| ensures rest[i].name != name {
            assert rest[i] == entries[i + 1];
          }
        }
        assert head + [] == head;
      } else {
        assert Named(entries, name, all) == Named(rest, name, all) by {
          NamedTail(entries, name, all);
        }
        assert [] + Named(rest, name, all) == Named(rest, name, all);
      }
    }
  }

  lemma DistinctTail(entries: seq<Entry>)
    requires |entries| > 0
    requires forall a, b :: 0 <= a < b < |entries| ==> entries[a].name != entries[b].name
    ensures forall a, b :: 0 <= a < b < |entries[1..]| ==> entries[1..][a].name != entries[1..][b].name
  {
    forall a, b | 0 <= a < b < |entries[1..]| ensures entries[1..][a].name != entries[1..][b].name {
      assert entries[1..][a] == entries[a + 1] && entries[1..][b] == entries[b + 1];
    }
  }

  lemma NamedTail(entries: seq<Entry>, name: string, all: bool)
    requires |entries| > 0 && entries[0].name != name
    ensures Named(entries, name, all) == Named(entries[1..], name, all)
  {
    match FindName(entries[1..], name)
    case None =>
    case Some(i) => assert entries[i + 1] == entries[1..][i];
  }

  lemma PsCons(head: seq<Listed>, rest: seq<Listed>, name: string)
    requires |head| <= 1 && forall x :: x in head ==> |x.names| > 0
    requires Ps(rest, name).Ok?
    ensures Ps(head + rest, name) == Ok((if |head| == 1 && DropSlash(head[0].names[0]) == name then head else []) + Ps(rest, name).value)
  {
    if |head| == 1 {
      var l := head + rest;
      assert l[0] == head[0] && l[1..] == rest && head == [head[0]];
      assert |l[0].names| > 0;
      assert Ps(l, name) == Ok((if DropSlash(l[0].names[0]) == name then [l[0]] else []) + Ps(l[1..], name).value);
    } else {
      assert head + rest == rest;
      assert [] + Ps(rest, name).value == Ps(rest, name).value;
    }
  }

  // ---------------------------------------------------------------------
  // run_container

  /** `dock.images(name=repository)` finds something: an image reference of the repository. */
  predicate HasImages(available: set<string>, repository: string) {
    exists ref :: ref in available && StartsWith(ref, repository + ":")
  }

  /** The repository is pulled when asked to, or when the daemon holds none of its images. */
  predicate MustPull(available: set<string>, repository: string, pull: bool) {
    pull || !HasImages(available, repository)
  }

  function ImageOf(c: Container): string {
    c.repository + ":" + c.tag
  }

  /** The images the daemon holds once the pull step is done; None when a
      pull was needed and the registry does not know the tag. */
  function AfterPull(available: set<string>, registry: map<(string, string), string>, c: Container, pull: bool): (r: Option<set<string>>)
    ensures r.None? <==> MustPull(available, c.repository, pull) && (c.repository, c.tag) !in registry
    ensures r.Some? ==> available <= r.value
    ensures r.Some? && MustPull(available, c.repository, pull) ==> ImageOf(c) in r.value
  {
    if !MustPull(available, c.repository, pull) then Some(available)
    else if (c.repository, c.tag) in registry then Some(available + Pulls(registry, c.repository, c.tag))
    else None
  }

  function PullCalls(available: set<string>, c: Container, pull: bool): seq<Event> {
    if MustPull(available, c.repository, pull) then [Pulled(c.repository, c.tag)] else []
  }

  /** The binding of one port: `'<port>/tcp'` to the same port on all addresses. */
  function PortBinding(p: (string, nat)): (string, (string, int)) {
    (Decimal(p.1) + "/tcp", ("::", p.1 as int))
  }

  /** The `port_bindings` of `start`. */
  function Publish(ports: Dict<string, nat>): PortBindings {
    Update([], Map(ports, PortBinding))
  }

  /** The `binds` of `start`: each volume's path mounted at its destination. */
  function Mounts(volumes: seq<Volume>): Binds {
    Update([], Map(volumes, (v: Volume) => (v.path, (v.dest, v.ro))))
  }

  /** What the container is created from: the tagged image, the hostname
      `'<name>-<ship name>'`, no command, and the port numbers. */
  function SpecFor(c: Container): CreateSpec {
    CreateSpec(ImageOf(c), c.name + "-" + c.ship.name, None, c.memory, c.env, Map(c.ports, (p: (string, nat)) => p.1))
  }

  /** The container `run_container` creates and starts, under the daemon's counter. */
  function RunningEntry(c: Container, serial: nat): Entry {
    Entry(serial, IdOf(serial), c.name, "Up", SpecFor(c), Publish(c.ports), Mounts(c.volumes))
  }

  /** What following a container leaves: a detached one runs on; otherwise
      it is stopped, and removed too when asked to. */
  function Followed(x: Entry, detach: bool, remove: bool): seq<Entry> {
    if detach then [x] else if remove then [] else [x.(status := StatusAfterStop(x.status))]
  }

  function FollowCalls(id: string, detach: bool, remove: bool): seq<Event> {
    if detach then [] else if remove then [Stopped(id), Removed(id)] else [Stopped(id)]
  }

  /** Every port binding `start` is given publishes a port at itself, on
      all addresses over tcp. */
  lemma PublishedBinding(ports: Dict<string, nat>, k: string)
    ensures Get(Publish(ports), k).Some? ==>
      var b := Get(Publish(ports), k).value;
      b.0 == "::" && b.1 >= 0 && k == Decimal(b.1 as nat) + "/tcp"
  {
    var pairs := Map(ports, PortBinding);
    GetUpdate([], pairs, k);
    LastGetIn(pairs, k);
  }

  /** Every declared port is published at itself. */
  lemma PublishedPort(ports: Dict<string, nat>, i: nat)
    requires i < |ports|
    ensures Get(Publish(ports), Decimal(ports[i].1) + "/tcp") == Some(("::", ports[i].1 as int))
  {
    var pairs := Map(ports, PortBinding);
    var k := Decimal(ports[i].1) + "/tcp";
    assert pairs[i].0 == k;
    GetUpdate([], pairs, k);
    LastGetFound(pairs, k, i);
    PublishedBinding(ports, k);
    var b := Get(Publish(ports), k).value;
    SuffixCancel(Decimal(b.1 as nat), Decimal(ports[i].1), "/tcp");
    IdOfInjective(b.1 as nat, ports[i].1);
  }

  lemma SuffixCancel(a: string, b: string, tail: string)
    requires a + tail == b + tail
    ensures a == b
  {
    assert |a| == |b|;
    assert a == (a + tail)[..|a|];
    assert b == (b + tail)[..|b|];
  }

  /** A value the last pair for a key carries is the value of some pair of
      that key, here a binding of one port. */
  lemma {:induction false} LastGetIn(pairs: seq<(string, (string, int))>, k: string)
    requires forall j :: 0 <= j < |pairs| ==> pairs[j].1.0 == "::" && pairs[j].1.1 >= 0 && pairs[j].0 == Decimal(pairs[j].1.1 as nat) + "/tcp"
    ensures LastGet(pairs, k).Some? ==>
      var b := LastGet(pairs, k).value;
      b.0 == "::" && b.1 >= 0 && k == Decimal(b.1 as nat) + "/tcp"
  {
    if |pairs| > 0 && pairs[|pairs| - 1].0 != k {
      LastGetIn(pairs[..|pairs| - 1], k);
    }
  }

  lemma {:induction false} LastGetFound<K, V>(pairs: seq<(K, V)>, k: K, i: nat)
    requires i < |pairs| && pairs[i].0 == k
    ensures LastGet(pairs, k).Some?
  {
    if i < |pairs| - 1 && pairs[|pairs| - 1].0 != k {
      LastGetFound(pairs[..|pairs| - 1], k, i);
    }
  }

  /** Once the container holding a name is gone, no container has it. */
  lemma VacatedFrees(entries: seq<Entry>, name: string)
    requires forall a, b :: 0 <= a < b < |entries| ==> entries[a].name != entries[b].name
    ensures FindName(Entities.Vacated(entries, name), name).None?
  {
    match FindName(entries, name)
    case None =>
    case Some(n) => RemoveNamed(entries, n);
  }

  /** A detached run leaves the name held by the one container just started. */
  lemma RunLeavesOne(entries: seq<Entry>, c: Container, serial: nat)
    requires forall a, b :: 0 <= a < b < |entries| ==> entries[a].name != entries[b].name
    ensures var after := Entities.Vacated(entries, c.name) + [RunningEntry(c, serial)];
      FindName(after, c.name) == Some(|after| - 1) && IsUp(after[|after| - 1].status)
  {
    var vacated := Entities.Vacated(entries, c.name);
    VacatedFrees(entries, c.name);
    var after := vacated + [RunningEntry(c, serial)];
    assert after[|vacated|].name == c.name;
    assert forall j :: 0 <= j < |vacated| ==> after[j] == vacated[j];
    assert IsUp("Up") by {
      assert StartsWith("Up", "Up");
    }
  }

  /** The pull step: `pull_repo` when asked to, or when no image of the
      repository is there. */
  method PullStep(d: Daemon, c: Container, pull: bool) returns (r: Result<()>)
    requires d.Valid()
    modifies d
    ensures d.Valid() && d.entries == old(d.entries) && d.registry == old(d.registry) && d.next == old(d.next)
    ensures d.trace == old(d.trace) + PullCalls(old(d.available), c, pull)
    ensures AfterPull(old(d.available), d.registry, c, pull).None? ==> r.Err? && r.error.DockerException? && d.available == old(d.available)
    ensures AfterPull(old(d.available), d.registry, c, pull).Some? ==> r.Ok? && d.available == AfterPull(old(d.available), d.registry, c, pull).value
  {
    r := Ok(());
    if MustPull(d.available, c.repository, pull) {
      r := d.Pull(c.repository, c.tag);
    }
  }

  /** Stops the running container that `_ps` finds under the name. */
  method StopRunning(d: Daemon, name: string)
    requires d.Valid()
    modifies d
    ensures d.Valid() && d.available == old(d.available) && d.registry == old(d.registry) && d.next == old(d.next)
    ensures d.entries == Entities.Halted(old(d.entries), name)
    ensures d.trace == old(d.trace) + Entities.Halts(old(d.entries), name)
  {
    PsContainers(d.entries, name, false);
    var running := Ps(ContainersOf(d.entries, false), name).value;
    if |running| > 0 {
      var n := FindName(d.entries, name).value;
      d.IdsDistinct();
      FindIdUnique(d.entries, n);
      var stopped := d.Stop(running[0].id);
    }
  }

  /** Removes, without force, the container that `_ps` over all containers
      finds under the name; a running one is refused with 409. */
  method RemoveListed(d: Daemon, name: string) returns (r: Result<()>)
    requires d.Valid()
    modifies d
    ensures d.Valid() && d.available == old(d.available) && d.registry == old(d.registry) && d.next == old(d.next)
    ensures FindName(old(d.entries), name).Some? && IsUp(old(d.entries)[FindName(old(d.entries), name).value].status) ==>
      r == Err(ApiError(409)) && d.entries == old(d.entries) && d.trace == old(d.trace)
    ensures FindName(old(d.entries), name).None? || !IsUp(old(d.entries)[FindName(old(d.entries), name).value].status) ==>
      && r.Ok?
      && d.entries == Entities.Vacated(old(d.entries), name)
      && d.trace == old(d.trace) + Entities.Evicted(old(d.entries), name)
  {
    PsContainers(d.entries, name, true);
    var listed := Ps(ContainersOf(d.entries, true), name).value;
    r := Ok(());
    if |listed| > 0 {
      var n := FindName(d.entries, name).value;
      d.IdsDistinct();
      FindIdUnique(d.entries, n);
      r := d.Remove(listed[0].id, false);
    }
  }

  /** Stops the running holder of the name, then removes it. */
  method Clear(d: Daemon, name: string)
    requires d.Valid()
    modifies d
    ensures d.Valid() && d.available == old(d.available) && d.registry == old(d.registry) && d.next == old(d.next)
    ensures d.entries == Entities.Vacated(old(d.entries), name)
    ensures d.trace == old(d.trace) + Entities.Retired(old(d.entries), name)
  {
    ghost var entries, trace := d.entries, d.trace;
    StopRunning(d, name);
    Entities.HaltThenEvict(entries, name);
    var removed := RemoveListed(d, name);
    assert trace + Entities.Halts(entries, name) + Entities.Evicted(Entities.Halted(entries, name), name)
        == trace + (Entities.Halts(entries, name) + Entities.Evicted(Entities.Halted(entries, name), name));
  }

  /** Creates the container and starts it with its ports and volumes; the
      create call fails with 404 for an image the daemon does not hold and
      with 409 for a name in use. */
  method Launch(d: Daemon, c: Container) returns (r: Result<string>)
    requires d.Valid()
    modifies d
    ensures d.Valid() && d.available == old(d.available) && d.registry == old(d.registry)
    ensures ImageOf(c) !in d.available ==>
      r == Err(ApiError(404)) && d.entries == old(d.entries) && d.next == old(d.next) && d.trace == old(d.trace) + [Refused(c.name, 404)]
    ensures ImageOf(c) in d.available && FindName(old(d.entries), c.name).Some? ==>
      r == Err(ApiError(409)) && d.entries == old(d.entries) && d.next == old(d.next) && d.trace == old(d.trace) + [Refused(c.name, 409)]
    ensures ImageOf(c) in d.available && FindName(old(d.entries), c.name).None? ==>
      && r == Ok(IdOf(old(d.next))) && FindId(old(d.entries), r.value).None?
      && d.next == old(d.next) + 1
      && d.entries == old(d.entries) + [RunningEntry(c, old(d.next))]
      && d.trace == old(d.trace) + [Created(c.name, r.value), Started(r.value)]
  {
    ghost var entries := d.entries;
    ghost var next := d.next;
    var created := d.Create(SpecFor(c), c.name);
    if created.Err? {
      return Err(created.error);
    }
    var id := created.value;
    assert d.entries[|entries|].id == IdOf(d.entries[|entries|].serial);
    var x := Entry(next, id, c.name, "Created", SpecFor(c), [], []);
    LastEntry(entries, x, x.(status := "Up", published := Publish(c.ports), binds := Mounts(c.volumes)));
    var started := d.Start(id, Publish(c.ports), Mounts(c.volumes));
    Snoc2(old(d.trace), Created(c.name, id), Started(id));
    r := Ok(id);
  }

  /** Without `detach`, waits on the container's logs, then stops it and,
      with `remove`, removes it. */
  method Follow(d: Daemon, id: string, ghost prefix: seq<Entry>, ghost x: Entry, detach: bool, remove: bool)
    requires d.Valid() && d.entries == prefix + [x] && x.id == id && FindId(prefix, id).None?
    modifies d
    ensures d.Valid() && d.available == old(d.available) && d.registry == old(d.registry) && d.next == old(d.next)
    ensures d.entries == prefix + Followed(x, detach, remove)
    ensures d.trace == old(d.trace) + FollowCalls(id, detach, remove)
  {
    if !detach {
      var exited := x.(status := StatusAfterStop(x.status));
      LastEntry(prefix, x, exited);
      var stopped := d.Stop(id);
      if remove {
        FindLast(prefix, exited);
        RemoveLast(prefix, exited);
        var removed := d.Remove(id, false);
        Snoc2(old(d.trace), Stopped(id), Removed(id));
      }
    }
  }

  /** `run_container`: only on the local ship; pulls when needed, clears the
      name (stopping a running holder before removing it), creates and
      starts the container, then follows it unless detached. A failed pull
      or create stops there. */
  method RunContainer(d: Daemon, c: Container, remove: bool, pull: bool, detach: bool) returns (r: Result<()>)
    requires d.Valid()
    modifies d
    ensures d.Valid() && d.registry == old(d.registry)
    ensures !c.ship.islocal ==>
      && r == Err(RuntimeError("could only run containers on local docker (because of volumes)"))
      && d.entries == old(d.entries) && d.available == old(d.available) && d.trace == old(d.trace)
    ensures c.ship.islocal && AfterPull(old(d.available), d.registry, c, pull).None? ==>
      && r.Err? && r.error.DockerException?
      && d.entries == old(d.entries) && d.trace == old(d.trace) + PullCalls(old(d.available), c, pull)
    ensures c.ship.islocal && AfterPull(old(d.available), d.registry, c, pull).Some? ==>
      d.available == AfterPull(old(d.available), d.registry, c, pull).value
    ensures c.ship.islocal && AfterPull(old(d.available), d.registry, c, pull).Some? && ImageOf(c) !in d.available ==>
      && r == Err(ApiError(404))
      && d.entries == Entities.Vacated(old(d.entries), c.name)
      && d.trace == old(d.trace) + PullCalls(old(d.available), c, pull) + Entities.Retired(old(d.entries), c.name) + [Refused(c.name, 404)]
    ensures c.ship.islocal && AfterPull(old(d.available), d.registry, c, pull).Some? && ImageOf(c) in d.available ==>
      && r.Ok?
      && d.entries == Entities.Vacated(old(d.entries), c.name) + Followed(RunningEntry(c, old(d.next)), detach, remove)
      && d.trace == old(d.trace) + PullCalls(old(d.available), c, pull) + Entities.Retired(old(d.entries), c.name)
                    + [Created(c.name, IdOf(old(d.next))), Started(IdOf(old(d.next)))]
                    + FollowCalls(IdOf(old(d.next)), detach, remove)
  {
    if !c.ship.islocal {
      return Err(RuntimeError("could only run containers on local docker (because of volumes)"));
    }
    r := PullStep(d, c, pull);
    if r.Err? {
      return;
    }
    ghost var entries := d.entries;
    Clear(d, c.name);
    VacatedFrees(entries, c.name);
    ghost var vacated := d.entries;
    var launched := Launch(d, c);
    if launched.Err? {
      return Err(launched.error);
    }
    Follow(d, launched.value, vacated, RunningEntry(c, d.next - 1), detach, remove);
    r := Ok(());
  }

  // ---------------------------------------------------------------------
  // run

  /** Whether `run` acts on a container: on the local ship, and the one
      named when a name is given. */
  predicate Chosen(c: Container, container: Option<string>) {
    c.ship.islocal && (container.None? || c.name == container.value)
  }

  /** The `run_container` calls `run` makes, in order, with the `detach`
      each gets: with no name every container is detached. */
  function Selection(containers: seq<Container>, container: Option<string>, detach: bool): seq<(Container, bool)> {
    if |containers| == 0 then []
    else
      var last := containers[|containers| - 1];
      Selection(containers[..|containers| - 1], container, detach)
      + (if Chosen(last, container) then [(last, if container.Some? then detach else true)] else [])
  }

  /** `run` acts on exactly the chosen containers, detaching each unless a
      name was given and `detach` was not. */
  lemma {:induction false} SelectionExact(containers: seq<Container>, container: Option<string>, detach: bool)
    ensures forall c, det :: (c, det) in Selection(containers, container, detach) <==>
      c in containers && Chosen(c, container) && det == (container.None? || detach)
  {
    if |containers| > 0 {
      var init := containers[..|containers| - 1];
      SelectionExact(init, container, detach);
      assert containers == init + [containers[|containers| - 1]];
    }
  }

  /** `run`: calls `run_container` on the selected containers in order; a
      failure stops the loop. */
  method Run(d: Daemon, containers: seq<Container>, container: Option<string>, remove: bool, pull: bool, detach: bool)
    returns (r: Result<()>, ghost ran: seq<(Container, bool)>)
    requires d.Valid()
    modifies d
    ensures d.Valid() && d.registry == old(d.registry)
    ensures r.Ok? ==> ran == Selection(containers, container, detach)
    ensures r.Err? ==> |ran| > 0 && exists n :: 0 <= n <= |containers| && ran == Selection(containers[..n], container, detach)
  {
    ran := [];
    r := Ok(());
    for i := 0 to |containers|
      invariant d.Valid() && d.registry == old(d.registry) && r.Ok?
      invariant ran == Selection(containers[..i], container, detach)
    {
      var c := containers[i];
      assert containers[..i + 1][..i] == containers[..i];
      if Chosen(c, container) {
        var det := if container.Some? then detach else true;
        ran := ran + [(c, det)];
        r := RunContainer(d, c, remove, pull, det);
        if r.Err? {
          assert ran == Selection(containers[..i + 1], container, detach);
          return;
        }
      }
    }
    assert containers[..|containers|] == containers;
  }

  // ---------------------------------------------------------------------
  // status and deploy

  /** The distinct ships of the containers, and only the one named when a
      name is given, in the order the set yields them. */
  method VisitShips(containers: seq<Container>, ship: Option<string>) returns (visited: seq<Ship>)
    ensures forall i, j :: 0 <= i < j < |visited| ==> visited[i] != visited[j]
    ensures forall s :: s in visited <==> (exists c :: c in containers && c.ship == s) && (ship.None? || s.name == ship.value)
  {
    var ships := set c | c in containers :: c.ship;
    var left := ships;
    visited := [];
    while left != {}
      invariant left <= ships
      invariant forall i, j :: 0 <= i < j < |visited| ==> visited[i] != visited[j]
      invariant forall s :: s in visited ==> s in ships && s !in left && (ship.None? || s.name == ship.value)
      invariant forall s :: s in ships && s !in left && (ship.None? || s.name == ship.value) ==> s in visited
      decreases |left|
    {
      var s :| s in left;
      left := left - {s};
      if ship.None? || s.name == ship.value {
        visited := visited + [s];
      }
    }
  }

  /** A line `status` prints: a ship's name, or a container's name and status. */
  datatype Line = ShipLine(ship: string) | ContainerLine(name: string, status: string)

  /** `s.containers(containers)`: the containers on a ship, in order. */
  function OnShip(containers: seq<Container>, s: Ship): (r: seq<Container>)
    ensures forall c :: c in r <==> c in containers && c.ship == s
  {
    if |containers| == 0 then []
    else
      assert containers == [containers[0]] + containers[1..];
      (if containers[0].ship == s then [containers[0]] else []) + OnShip(containers[1..], s)
  }

  /** The status shown for a container: that of the first listed container
      with its name, or "not found". */
  function ContainerStatus(listing: seq<Listed>, name: string): Result<string> {
    var matched :- Ps(listing, name);
    Ok(if |matched| == 0 then "not found" else matched[0].status)
  }

  /** On a daemon with distinct names, the status shown is the container's
      own, or "not found" when no container has the name. */
  lemma DaemonStatus(entries: seq<Entry>, name: string)
    requires forall a, b :: 0 <= a < b < |entries| ==> entries[a].name != entries[b].name
    ensures FindName(entries, name).None? ==> ContainerStatus(ListingOf(entries), name) == Ok("not found")
    ensures FindName(entries, name).Some? ==>
      ContainerStatus(ListingOf(entries), name) == Ok(entries[FindName(entries, name).value].status)
  {
    ContainersOfAll(entries);
    PsContainers(entries, name, true);
  }

  /** The container lines of one ship. */
  function ShipLines(cs: seq<Container>, listing: seq<Listed>): Result<seq<Line>> {
    if |cs| == 0 then Ok([])
    else
      var init :- ShipLines(cs[..|cs| - 1], listing);
      var status :- ContainerStatus(listing, cs[|cs| - 1].name);
      Ok(init + [ContainerLine(cs[|cs| - 1].name, status)])
  }

  /** The lines for the ships visited: each ship's name, then its containers. */
  function Report(ships: seq<Ship>, containers: seq<Container>, listing: Ship -> seq<Listed>): Result<seq<Line>> {
    if |ships| == 0 then Ok([])
    else
      var s := ships[|ships| - 1];
      var init :- Report(ships[..|ships| - 1], containers, listing);
      var lines :- ShipLines(OnShip(containers, s), listing(s));
      Ok(init + [ShipLine(s.name)] + lines)
  }

  /** The container lines of one ship, printed as they are found. */
  method ShowShip(cs: seq<Container>, listing: seq<Listed>) returns (lines: seq<Line>, r: Result<()>)
    ensures r.Ok? <==> ShipLines(cs, listing).Ok?
    ensures r.Ok? ==> ShipLines(cs, listing) == Ok(lines)
    ensures r.Err? ==> r.error == IndexError
  {
    lines := [];
    r := Ok(());
    for i := 0 to |cs|
      invariant ShipLines(cs[..i], listing) == Ok(lines)
    {
      assert cs[..i + 1][..i] == cs[..i];
      var status := ContainerStatus(listing, cs[i].name);
      if status.Err? {
        ShipLinesFail(cs, listing, i + 1);
        return lines, Err(status.error);
      }
      lines := lines + [ContainerLine(cs[i].name, status.value)];
    }
    assert cs[..|cs|] == cs;
  }

  /** Once a prefix fails, the whole list fails with IndexError. */
  lemma {:induction false} ShipLinesFail(cs: seq<Container>, listing: seq<Listed>, n: nat)
    requires 0 < n <= |cs| && ShipLines(cs[..n], listing).Err?
    ensures ShipLines(cs, listing).Err? && ShipLines(cs, listing).error == IndexError
    decreases |cs|
  {
    if n < |cs| {
      assert cs[..|cs| - 1][..n] == cs[..n];
      ShipLinesFail(cs[..|cs| - 1], listing, n);
    } else {
      assert cs[..n] == cs;
      ShipLinesError(cs, listing);
    }
  }

  lemma {:induction false} ShipLinesError(cs: seq<Container>, listing: seq<Listed>)
    ensures ShipLines(cs, listing).Err? ==> ShipLines(cs, listing).error == IndexError
  {
    if |cs| > 0 {
      ShipLinesError(cs[..|cs| - 1], listing);
    }
  }

  /** `status`: for each ship visited, its name, then each of its
      containers with the status its daemon lists; a listing entry without
      names raises IndexError. */
  method Status(containers: seq<Container>, ship: Option<string>, listing: Ship -> seq<Listed>)
    returns (visited: seq<Ship>, out: seq<Line>, r: Result<()>)
    ensures forall i, j :: 0 <= i < j < |visited| ==> visited[i] != visited[j]
    ensures forall s :: s in visited <==> (exists c :: c in containers && c.ship == s) && (ship.None? || s.name == ship.value)
    ensures r.Ok? <==> Report(visited, containers, listing).Ok?
    ensures r.Ok? ==> Report(visited, containers, listing) == Ok(out)
  {
    visited := VisitShips(containers, ship);
    out := [];
    r := Ok(());
    for i := 0 to |visited|
      invariant r.Ok? && Report(visited[..i], containers, listing) == Ok(out)
    {
      var s := visited[i];
      var lines;
      lines, r := ShowShip(OnShip(containers, s), listing(s));
      ReportStep(visited, containers, listing, i, out);
      out := out + [ShipLine(s.name)] + lines;
      if r.Err? {
        ReportFail(visited, containers, listing, i + 1);
        return;
      }
    }
    assert visited[..|visited|] == visited;
  }

  lemma ReportStep(ships: seq<Ship>, containers: seq<Container>, listing: Ship -> seq<Listed>, i: nat, out: seq<Line>)
    requires i < |ships| && Report(ships[..i], containers, listing) == Ok(out)
    ensures var lines := ShipLines(OnShip(containers, ships[i]), listing(ships[i]));
      && (lines.Err? ==> Report(ships[..i + 1], containers, listing).Err?)
      && (lines.Ok? ==> Report(ships[..i + 1], containers, listing) == Ok(out + [ShipLine(ships[i].name)] + lines.value))
  {
    assert ships[..i + 1][..i] == ships[..i];
  }

  lemma {:induction false} ReportFail(ships: seq<Ship>, containers: seq<Container>, listing: Ship -> seq<Listed>, n: nat)
    requires 0 < n <= |ships| && Report(ships[..n], containers, listing).Err?
    ensures Report(ships, containers, listing).Err?
    decreases |ships|
  {
    if n < |ships| {
      assert ships[..|ships| - 1][..n] == ships[..n];
      ReportFail(ships[..|ships| - 1], containers, listing, n);
    } else {
      assert ships[..n] == ships;
    }
  }

  // ---------------------------------------------------------------------
  // pythonize_arg

  /** `pythonize_arg`: the option name with every '--', then every '<',
      then every '>' removed. */
  function PythonizeArg(arg: string): (r: string)
    ensures '<' !in r && '>' !in r
  {
    var r := RemoveAll(RemoveAll(RemoveAll(arg, "--"), "<"), ">");
    RemoveAllChar(RemoveAll(arg, "--"), '<');
    RemoveAllChar(RemoveAll(RemoveAll(arg, "--"), "<"), '>');
    r
  }

  /** A long option `--name` and a positional `<name>` both become `name`. */
  lemma PythonizeOption(name: string)
    requires '<' !in name && '>' !in name && !IsInfix("--", name)
    ensures PythonizeArg("--" + name) == name
    ensures PythonizeArg("<" + name + ">") == name
  {
    LongOption(name);
    Positional(name);
  }

  lemma LongOption(name: string)
    requires '<' !in name && '>' !in name && !IsInfix("--", name)
    ensures PythonizeArg("--" + name) == name
  {
    assert RemoveAll("--" + name, "--") == name by {
      assert StartsWith("--" + name, "--");
      assert ("--" + name)[2..] == name;
      RemoveAbsent(name, "--");
    }
    RemoveAbsentChar(name, '<');
    RemoveAbsentChar(name, '>');
  }

  lemma Positional(name: string)
    requires '<' !in name && '>' !in name && !IsInfix("--", name)
    ensures PythonizeArg("<" + name + ">") == name
  {
    var arg := "<" + name + ">";
    assert RemoveAll(arg, "--") == arg by {
      NoDashesAround(name);
      RemoveAbsent(arg, "--");
    }
    assert RemoveAll(arg, "<") == name + ">" by {
      assert StartsWith(arg, "<") && arg[1..] == name + ">";
      assert '<' !in name + ">";
      RemoveAbsentChar(name + ">", '<');
    }
    RemoveTrailing(name, '>');
  }

  lemma NoDashesAround(name: string)
    requires '<' !in name && '>' !in name && !IsInfix("--", name)
    ensures !IsInfix("--", "<" + name + ">")
  {
    var arg := "<" + name + ">";
    assert arg[..2][0] == '<';
    assert arg[1..] == name + ">";
    NoDashesBefore(name);
  }

  lemma {:induction false} NoDashesBefore(s: string)
    requires !IsInfix("--", s) && '>' !in s
    ensures !IsInfix("--", s + ">")
    decreases |s|
  {
    var t := s + ">";
    if |s| > 0 {
      assert t[1..] == s[1..] + ">";
      NoDashesBefore(s[1..]);
      if |s| >= 2 {
        assert t[..2] == s[..2];
      } else {
        assert t[..2] == [s[0], '>'];
      }
    } else {
      assert !StartsWith(t, "--");
      assert t[1..] == [];
    }
  }

  /** Removing '<' can bring two dashes together that the earlier pass had
      kept apart: `-<-` gives `--`. */
  lemma PythonizeJoinsDashes()
    ensures PythonizeArg("-<-") == "--"
  {
    var arg := "-<-";
    assert RemoveAll("-", "--") == "-" by {
      assert "-"[1..] == "";
    }
    assert RemoveAll("<-", "--") == "<-" by {
      assert "<-"[..2][0] == '<' && "<-"[1..] == "-";
    }
    assert RemoveAll(arg, "--") == arg by {
      assert arg[..2][1] == '<' && arg[1..] == "<-";
    }
    assert RemoveAll("<-", "<") == "-" by {
      assert "<-"[..1] == "<" && "<-"[1..] == "-";
      assert "-"[..1][0] == '-' && "-"[1..] == "";
    }
    assert RemoveAll(arg, "<") == "--" by {
      assert arg[..1][0] == '-' && arg[1..] == "<-";
    }
    RemoveAbsentChar("--", '>');
  }
}
