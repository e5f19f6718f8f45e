/** The deployable entities (dominator/entities/__init__.py): images, the
    canonical description a source image's tag is derived from, and the
    container whose lifecycle is driven against a ship's Docker daemon. */
module Entities {
  import opened Wrappers
  import opened Text
  import opened Dicts
  import opened Sorting
  import opened Runtime

  datatype Ship = Ship(name: string, fqdn: string)

  /** An image: the registry it lives in (None for the default one), its
      repository, its tag and its id. */
  datatype Image = Image(registry: Option<string>, repository: string, tag: string, id: string)

  /** `getfullrepository`: the repository, behind its registry when there is one. */
  function FullRepository(image: Image): (r: string)
    ensures image.registry.None? ==> r == image.repository
    ensures image.registry.Some? ==> r == image.registry.value + "/" + image.repository
  {
    match image.registry
    case None => image.repository
    case Some(registry) => registry + "/" + image.repository
  }

  /** The registry is what precedes the first '/' of the full repository. */
  lemma FullRepositoryParts(image: Image)
    requires image.registry.Some? && '/' !in image.registry.value
    ensures SplitOnce(FullRepository(image), '/') == [image.registry.value, image.repository]
  {
    var full := FullRepository(image);
    assert full == image.registry.value + ['/'] + image.repository;
    assert full[|image.registry.value|] == '/';
    var parts := SplitOnce(full, '/');
    PieceUnique(parts[0], parts[1], image.registry.value, image.repository, '/');
  }

  /** `'repository:id'`, the image a container is created from. */
  function ImageRef(image: Image): string {
    FullRepository(image) + ":" + image.id
  }

  /** The part of an image's inspect record that is read. Docker reports
      `Cmd` and `Env` as null for an image built without them. */
  datatype ImageConfig = ImageConfig(cmd: Option<seq<string>>, env: Option<seq<string>>)

  /** Docker answers with the configuration under "config" or under "Config". */
  datatype ImageInspect = ImageInspect(lower: Option<ImageConfig>, upper: Option<ImageConfig>)

  /** `Image.inspect`: "config" is preferred, then "Config"; neither is an
      unexpected response. */
  function InspectConfig(r: ImageInspect): (c: Result<ImageConfig>)
    ensures r.lower.Some? ==> c == Ok(r.lower.value)
    ensures r.lower.None? && r.upper.Some? ==> c == Ok(r.upper.value)
    ensures c.Err? <==> r.lower.None? && r.upper.None?
    ensures c.Err? ==> c.error.RuntimeError?
  {
    if r.lower.Some? then Ok(r.lower.value)
    else if r.upper.Some? then Ok(r.upper.value)
    else Err(RuntimeError("unexpected response from Docker"))
  }

  /** `getenv`: the image's environment list as a dictionary. */
  function GetEnv(r: ImageInspect): Result<Dict<string, string>> {
    var config :- InspectConfig(r);
    EnvFromList(config.env)
  }

  /** An environment the image was built with reads back as itself. */
  lemma GetEnvRoundTrip(r: ImageInspect, d: Dict<string, string>)
    requires InspectConfig(r).Ok? && InspectConfig(r).value.env == Some(EnvVars(d))
    requires Unique(d) && forall i :: 0 <= i < |d| ==> '=' !in d[i].0
    ensures GetEnv(r) == Ok(d)
  {
    EnvRoundTrip(d);
  }

  /** `getcommand`: the command words joined by spaces. */
  function GetCommand(r: ImageInspect): Result<string> {
    var config :- InspectConfig(r);
    JoinList(config.cmd, " ")
  }

  /** The image's command words joined by spaces, or TypeError when the
      image has no command, or the response's RuntimeError. */
  lemma ImageCommand(r: ImageInspect)
    ensures GetCommand(r).Ok? <==> InspectConfig(r).Ok? && InspectConfig(r).value.cmd.Some?
    ensures GetCommand(r).Ok? ==> GetCommand(r).value == Join(InspectConfig(r).value.cmd.value, " ")
    ensures InspectConfig(r).Ok? && InspectConfig(r).value.cmd.None? ==> GetCommand(r).error.TypeError?
  {
  }

  /** An image without an environment list fails `getenv` with TypeError. */
  lemma NullEnvFails(r: ImageInspect)
    requires InspectConfig(r).Ok? && InspectConfig(r).value.env.None?
    ensures GetEnv(r).Err? && GetEnv(r).error.TypeError?
  {
  }

  // ---------------------------------------------------------------------
  // The canonical description behind a source image's tag

  /** The JSON values that go into the description. */
  datatype Json =
    | JNull
    | JStr(s: string)
    | JInt(n: int)
    | JList(items: seq<Json>)
    | JObject(members: seq<(string, Json)>)

  function MemberKey(m: (string, Json)): string {
    m.0
  }

  function PairKey(p: (string, string)): string {
    p.0
  }

  /** `sort_keys=True`: every object's members ordered by key, all the way down. */
  function Normal(j: Json): Json
    decreases j, 1
  {
    match j
    case JList(items) => JList(seq(|items|, i requires 0 <= i < |items| => Normal(items[i])))
    case JObject(_) => JObject(MakeSorted(NormalMembers(j), MemberKey))
    case _ => j
  }

  /** An object's members with their values in normal form, in their own order. */
  function NormalMembers(j: Json): (r: seq<(string, Json)>)
    requires j.JObject?
    ensures |r| == |j.members|
    ensures forall i :: 0 <= i < |r| ==> r[i] == (j.members[i].0, Normal(j.members[i].1))
    decreases j, 0
  {
    seq(|j.members|, i requires 0 <= i < |j.members| => (j.members[i].0, Normal(j.members[i].1)))
  }

  /** The text `json.dumps` writes for a value (string escaping is not modelled). */
  function Dump(j: Json): string {
    match j
    case JNull => "null"
    case JStr(s) => "\"" + s + "\""
    case JInt(n) => IntText(n)
    case JList(items) => "[" + Join(seq(|items|, i requires 0 <= i < |items| => Dump(items[i])), ", ") + "]"
    case JObject(members) =>
      "{" + Join(seq(|members|, i requires 0 <= i < |members| => "\"" + members[i].0 + "\": " + Dump(members[i].1)), ", ") + "}"
  }

  /** What a source image's tag is computed from. `parent` is the parent
      image's own state, `files` maps each path to the file's content. */
  datatype SourceImage = SourceImage(
    repository: string,
    parent: Json,
    scripts: seq<string>,
    command: Option<string>,
    env: Dict<string, string>,
    volumes: seq<string>,
    ports: seq<int>,
    files: Dict<string, string>)

  function StrMember(p: (string, string)): (string, Json) {
    (p.0, JStr(p.1))
  }

  function Strings(xs: seq<string>): seq<Json> {
    Map(xs, s => JStr(s))
  }

  /** The dictionary `gettag` dumps; `hash` stands for the files' SHA-256 hex digests. */
  function Description(img: SourceImage, hash: string -> string): seq<(string, Json)> {
    [ ("repository", JStr(img.repository)),
      ("parent", img.parent),
      ("scripts", JList(Strings(img.scripts))),
      ("command", if img.command.Some? then JStr(img.command.value) else JNull),
      ("env", JObject(Map(img.env, StrMember))),
      ("volumes", JList(Strings(img.volumes))),
      ("ports", JList(Map(img.ports, n => JInt(n)))),
      ("files", JObject(Map(img.files, (p: (string, string)) => (p.0, JStr(hash(p.1)))))) ]
  }

  /** `gettag`: the digest of the description dumped with sorted keys.
      `digest` stands for SHA-256 followed by base64. */
  function Tag(img: SourceImage, hash: string -> string, digest: string -> string): string {
    digest(Dump(Normal(JObject(Description(img, hash)))))
  }

  /** A dictionary's members, once its keys are sorted, no longer depend on
      the order it was filled in. */
  lemma {:induction false} NormalObjectIgnoresOrder(a: Dict<string, string>, b: Dict<string, string>, f: ((string, string)) -> (string, Json))
    requires Unique(a) && multiset(a) == multiset(b)
    requires forall p :: f(p).0 == p.0 && f(p).1.JStr?
    ensures Normal(JObject(Map(a, f))) == Normal(JObject(Map(b, f)))
  {
    assert NormalMembers(JObject(Map(a, f))) == Map(a, f);
    assert NormalMembers(JObject(Map(b, f))) == Map(b, f);
    MakeSortedMap(a, f, PairKey, MemberKey);
    MakeSortedMap(b, f, PairKey, MemberKey);
    SortIgnoresOrder(a, b, PairKey);
  }

  /** Replacing one member's value by one with the same normal form keeps the normal form. */
  lemma SameNormalMember(d: seq<(string, Json)>, k: nat, v: Json)
    requires k < |d| && Normal(v) == Normal(d[k].1)
    ensures Normal(JObject(d[k := (d[k].0, v)])) == Normal(JObject(d))
  {
    assert NormalMembers(JObject(d[k := (d[k].0, v)])) == NormalMembers(JObject(d));
  }

  /** The order in which `env` was filled in does not change the tag. */
  lemma EnvOrderKeepsTag(img: SourceImage, env: Dict<string, string>, hash: string -> string, digest: string -> string)
    requires Unique(img.env) && multiset(img.env) == multiset(env)
    ensures Tag(img.(env := env), hash, digest) == Tag(img, hash, digest)
  {
    NormalObjectIgnoresOrder(img.env, env, StrMember);
    var d := Description(img, hash);
    assert Description(img.(env := env), hash) == d[4 := (d[4].0, JObject(Map(env, StrMember)))];
    SameNormalMember(d, 4, JObject(Map(env, StrMember)));
  }

  /** The order in which `files` was filled in does not change the tag. */
  lemma FilesOrderKeepsTag(img: SourceImage, files: Dict<string, string>, hash: string -> string, digest: string -> string)
    requires Unique(img.files) && multiset(img.files) == multiset(files)
    ensures Tag(img.(files := files), hash, digest) == Tag(img, hash, digest)
  {
    var f := (p: (string, string)) => (p.0, JStr(hash(p.1)));
    NormalObjectIgnoresOrder(img.files, files, f);
    var d := Description(img, hash);
    assert Description(img.(files := files), hash) == d[7 := (d[7].0, JObject(Map(files, f)))];
    SameNormalMember(d, 7, JObject(Map(files, f)));
  }

  /** Two descriptions that differ in one member's normal form have different
      canonical forms. */
  lemma MemberChangesNormal(d1: seq<(string, Json)>, d2: seq<(string, Json)>, k: nat)
    requires |d1| == |d2| && k < |d1|
    requires forall i :: 0 <= i < |d2| ==> d2[i].0 == d1[i].0
    requires forall i :: 0 <= i < |d2| && i != k ==> d2[i].0 != d1[k].0
    requires Normal(d1[k].1) != Normal(d2[k].1)
    ensures Normal(JObject(d1)) != Normal(JObject(d2))
  {
    var n1 := NormalMembers(JObject(d1));
    var n2 := NormalMembers(JObject(d2));
    assert n1[k] in multiset(n1);
    assert n1[k] !in n2 by {
      forall i | 0 <= i < |n2| ensures n2[i] != n1[k] {
        if i != k {
          assert n2[i].0 != n1[k].0;
        }
      }
    }
    MakeSortedSortsAndPermutes(n1, MemberKey);
    MakeSortedSortsAndPermutes(n2, MemberKey);
    assert multiset(MakeSorted(n1, MemberKey)) != multiset(MakeSorted(n2, MemberKey));
  }

  lemma StringsDiffer(a: seq<string>, b: seq<string>)
    requires a != b
    ensures Normal(JList(Strings(a))) != Normal(JList(Strings(b)))
  {
    var na := Normal(JList(Strings(a)));
    var nb := Normal(JList(Strings(b)));
    assert |na.items| == |a| && |nb.items| == |b|;
    if |a| == |b| {
      var i :| 0 <= i < |a| && a[i] != b[i];
      assert Strings(a)[i] == JStr(a[i]) && Strings(b)[i] == JStr(b[i]);
      assert na.items[i] == Normal(JStr(a[i])) == JStr(a[i]);
      assert nb.items[i] == Normal(JStr(b[i])) == JStr(b[i]);
    }
  }

  /** Reordering the build scripts changes the canonical description. */
  lemma ScriptsOrderMatters(img: SourceImage, scripts: seq<string>, hash: string -> string)
    requires scripts != img.scripts
    ensures Normal(JObject(Description(img.(scripts := scripts), hash))) != Normal(JObject(Description(img, hash)))
  {
    StringsDiffer(scripts, img.scripts);
    MemberChangesNormal(Description(img.(scripts := scripts), hash), Description(img, hash), 2);
  }

  /** Reordering the declared volumes changes the canonical description. */
  lemma VolumesOrderMatters(img: SourceImage, volumes: seq<string>, hash: string -> string)
    requires volumes != img.volumes
    ensures Normal(JObject(Description(img.(volumes := volumes), hash))) != Normal(JObject(Description(img, hash)))
  {
    StringsDiffer(volumes, img.volumes);
    MemberChangesNormal(Description(img.(volumes := volumes), hash), Description(img, hash), 5);
  }

  /** Reordering the exposed ports changes the canonical description. */
  lemma PortsOrderMatters(img: SourceImage, ports: seq<int>, hash: string -> string)
    requires ports != img.ports
    ensures Normal(JObject(Description(img.(ports := ports), hash))) != Normal(JObject(Description(img, hash)))
  {
    var na := Normal(JList(Map(ports, n => JInt(n))));
    var nb := Normal(JList(Map(img.ports, n => JInt(n))));
    assert |na.items| == |ports| && |nb.items| == |img.ports|;
    if |ports| == |img.ports| {
      var i :| 0 <= i < |ports| && ports[i] != img.ports[i];
      assert na.items[i] == Normal(JInt(ports[i])) == JInt(ports[i]);
      assert nb.items[i] == Normal(JInt(img.ports[i])) == JInt(img.ports[i]);
    }
    MemberChangesNormal(Description(img.(ports := ports), hash), Description(img, hash), 6);
  }

  // ---------------------------------------------------------------------
  // Containers

  /** A volume: a data directory (its own path, or one under the data
      volume directory) or a configuration directory rendered from files,
      always read-only. */
  datatype Volume =
    | DataVolume(name: string, dest: string, path: Option<string>, ro: bool)
    | ConfigVolume(name: string, dest: string, files: seq<string>)

  function ReadOnly(v: Volume): bool {
    v.ConfigVolume? || v.ro
  }

  /** The `datavolumedir` and `configvolumedir` settings. */
  datatype VolumeDirs = VolumeDirs(data: string, config: string)

  /** `getpath`: where the volume lives on the ship. */
  function VolumePath(v: Volume, container: string, dirs: VolumeDirs): string {
    match v
    case DataVolume(name, _, path, _) =>
      if path.Some? && path.value != "" then path.value else PathJoin(PathJoin(dirs.data, container), name)
    case ConfigVolume(name, _, _) => PathJoin(PathJoin(dirs.config, container), name)
  }

  /** Everything a container is declared with: what `__getstate__` keeps. */
  datatype Declaration = Declaration(
    name: string,
    ship: Ship,
    image: Image,
    command: Option<string>,
    hostname: string,
    ports: Dict<string, nat>,
    memory: int,
    volumes: seq<Volume>,
    env: Dict<string, string>,
    extports: Dict<string, int>,
    portproto: Dict<string, string>)

  /** The hostname given, or `'<name>-<ship name>'` when none (or an empty one) is. */
  function Hostname(hostname: Option<string>, name: string, ship: Ship): string {
    if hostname.Some? && hostname.value != "" then hostname.value else name + "-" + ship.name
  }

  /** What `_create` asks the daemon for. */
  function SpecOf(d: Declaration): CreateSpec {
    CreateSpec(ImageRef(d.image), d.hostname, d.command, d.memory, d.env, Map(d.ports, (p: (string, nat)) => p.1))
  }

  /** `'<port>/<protocol>'`, tcp unless `portproto` says otherwise. */
  function BindingKey(d: Declaration, name: string, port: nat): string {
    Decimal(port) + "/" + Get(d.portproto, name).GetOr("tcp")
  }

  function BindingOf(d: Declaration, p: (string, nat)): (string, (string, int)) {
    (BindingKey(d, p.0, p.1), ("::", Get(d.extports, p.0).GetOr(p.1)))
  }

  /** The `port_bindings` of `start`: every logical port published on all
      addresses, at its external port when one is given. */
  function PortBindingsOf(d: Declaration): PortBindings {
    Update([], Map(d.ports, p => BindingOf(d, p)))
  }

  /** The `binds` of `start`: every volume's path mounted at its destination. */
  function BindsOf(d: Declaration, dirs: VolumeDirs): Binds {
    Update([], Map(d.volumes, v => (VolumePath(v, d.name, dirs), (v.dest, ReadOnly(v)))))
  }

  /** `getport`: the external port when one is given, else the port itself;
      the port is looked up first, so an undeclared name raises KeyError even
      when it has an external port. */
  function GetPort(d: Declaration, name: string): (r: Result<int>)
    ensures r.Err? <==> name !in Keys(d.ports)
    ensures r.Err? ==> r.error == KeyError(name)
  {
    match Get(d.ports, name)
    case None => Err(KeyError(name))
    case Some(port) => Ok(Get(d.extports, name).GetOr(port))
  }

  /** No two logical ports share a `'port/protocol'` key. */
  predicate DistinctBindingKeys(d: Declaration) {
    forall i, j :: 0 <= i < j < |d.ports| ==> BindingKey(d, d.ports[i].0, d.ports[i].1) != BindingKey(d, d.ports[j].0, d.ports[j].1)
  }

  /** A started container publishes each declared port at the port `getport` reports. */
  lemma StartPublishesGetPort(d: Declaration, name: string)
    requires DistinctBindingKeys(d) && GetPort(d, name).Ok?
    ensures Get(PortBindingsOf(d), BindingKey(d, name, Get(d.ports, name).value)) == Some(("::", GetPort(d, name).value))
  {
    var port := Get(d.ports, name).value;
    var i :| 0 <= i < |d.ports| && d.ports[i] == (name, port);
    var pairs := Map(d.ports, p => BindingOf(d, p));
    assert Unique(pairs);
    var key := BindingKey(d, name, port);
    assert pairs[i] == BindingOf(d, d.ports[i]);
    GetUpdate([], pairs, key);
    LastGetUnique(pairs, key);
    GetAt(pairs, i);
  }

  /** `Obtainable`: the image is on the daemon, or a pull of its tag brings it. */
  predicate Obtainable(available: set<string>, registry: map<(string, string), string>, image: Image) {
    ImageRef(image) in available
    || ((FullRepository(image), image.tag) in registry
        && ImageRef(image) in Pulls(registry, FullRepository(image), image.tag))
  }

  function Renders(volumes: seq<Volume>): (t: seq<Event>)
    ensures |t| == |volumes| && forall i :: 0 <= i < |t| ==> t[i] == Rendered(volumes[i].name)
  {
    Map(volumes, (v: Volume) => Rendered(v.name))
  }

  /** The fields a record passed to `check` sets: its 'Id' and 'Status',
      the old values for absent keys; an empty or missing record means the
      container is not there. */
  function Recorded(id: string, status: string, record: Option<Dict<string, string>>): (string, string) {
    if record.Some? && |record.value| > 0 then
      (Get(record.value, "Id").GetOr(id), Get(record.value, "Status").GetOr(status))
    else ("", "not found")
  }

  /** The record of a listed container. */
  function ListedRecord(listed: Option<Listed>): Option<Dict<string, string>> {
    match listed
    case None => None
    case Some(l) => Some([("Id", l.id), ("Status", l.status)])
  }

  /** The event a create call leaves: the container, or the refusal. */
  function CreateEvent(name: string, r: Result<()>, id: string): Event
    requires r.Ok? || r.error.ApiError?
  {
    if r.Ok? then Created(name, id) else Refused(name, r.error.status)
  }

  /** The record the daemon's listing gives for a name: the one container
      carrying it, or none. */
  lemma NamedRecord(entries: seq<Entry>, name: string)
    requires forall a, b :: 0 <= a < b < |entries| ==> entries[a].name != entries[b].name
    ensures FindName(entries, name).None? ==> ListedRecord(FindListed(ListingOf(entries), name)).None?
    ensures FindName(entries, name).Some? ==>
      var e := entries[FindName(entries, name).value];
      && ListedRecord(FindListed(ListingOf(entries), name)) == Some([("Id", e.id), ("Status", e.status)])
      && forall id, status :: Recorded(id, status, Some([("Id", e.id), ("Status", e.status)])) == (e.id, e.status)
  {
    ListingFindsByName(entries, name);
    forall a, b, id, status ensures Recorded(id, status, Some([("Id", a), ("Status", b)])) == (a, b) {
      var d := [("Id", a), ("Status", b)];
      assert Get(d, "Id") == Some(a);
      assert d[1..] == [("Status", b)];
      assert Get(d, "Status") == Some(b);
    }
  }

  /** The daemon's entry for a container just created from a declaration. */
  function Fresh(d: Declaration, serial: nat, id: string): Entry {
    Entry(serial, id, d.name, "Created", SpecOf(d), [], [])
  }

  /** The daemon's entry for a container created and started from a declaration. */
  function Launched(d: Declaration, dirs: VolumeDirs, serial: nat, id: string): Entry {
    Entry(serial, id, d.name, "Up", SpecOf(d), PortBindingsOf(d), BindsOf(d, dirs))
  }

  /** The differencer's verdict, abstracted: the container runs what was
      declared exactly when it was created from the same specification. */
  predicate SameAsDeclared(observed: Option<CreateSpec>, d: Declaration) {
    observed == Some(SpecOf(d))
  }

  /** The daemon's containers once the one holding a name, if any, is gone. */
  function Vacated(entries: seq<Entry>, name: string): seq<Entry> {
    match FindName(entries, name)
    case None => entries
    case Some(n) => RemoveAt(entries, n)
  }

  /** The changes that clearing a name makes: the container holding it is
      stopped when it runs, then removed. */
  function Retired(entries: seq<Entry>, name: string): seq<Event> {
    match FindName(entries, name)
    case None => []
    case Some(n) => (if IsUp(entries[n].status) then [Stopped(entries[n].id)] else []) + [Removed(entries[n].id)]
  }

  /** The change that removing the container holding a name makes, whatever its state. */
  function Evicted(entries: seq<Entry>, name: string): seq<Event> {
    match FindName(entries, name)
    case None => []
    case Some(n) => [Removed(entries[n].id)]
  }

  /** The daemon's containers once the container holding a name has been
      stopped, if it was running. */
  function Halted(entries: seq<Entry>, name: string): seq<Entry> {
    match FindName(entries, name)
    case None => entries
    case Some(n) => if IsUp(entries[n].status) then entries[n := entries[n].(status := "Exited")] else entries
  }

  /** The call that stopping makes: one, when the container holding the name runs. */
  function Halts(entries: seq<Entry>, name: string): seq<Event> {
    match FindName(entries, name)
    case None => []
    case Some(n) => if IsUp(entries[n].status) then [Stopped(entries[n].id)] else []
  }

  /** Stopping the holder of a name when it runs, then removing it, retires
      it: the stop leaves it down, and the two calls are the retiring ones. */
  lemma HaltThenEvict(entries: seq<Entry>, name: string)
    ensures Vacated(Halted(entries, name), name) == Vacated(entries, name)
    ensures Halts(entries, name) + Evicted(Halted(entries, name), name) == Retired(entries, name)
    ensures FindName(Halted(entries, name), name).Some? ==>
      !IsUp(Halted(entries, name)[FindName(Halted(entries, name), name).value].status)
  {
    match FindName(entries, name)
    case None =>
    case Some(n) =>
      if IsUp(entries[n].status) {
        StatusKeepsLookups(entries, n, "Exited", entries[n].id, name);
        DownStatuses();
      }
  }

  /** Whether `run` keeps the container holding the declared name: it runs,
      and runs what was declared. */
  predicate Kept(entries: seq<Entry>, d: Declaration) {
    match FindName(entries, d.name)
    case None => false
    case Some(n) => IsUp(entries[n].status) && SameAsDeclared(Some(entries[n].spec), d)
  }

  /** Of the calls of one `create`, only a successful create call changes a
      container. */
  lemma CallsChanges(tail: seq<Event>, available: set<string>, registry: map<(string, string), string>,
                     d: Declaration, r: Result<()>, id: string)
    requires CreateCalls(tail, available, registry, d, r, id)
    ensures Changes(tail) == if r.Ok? then [Created(d.name, id)] else []
  {
    var pull := (FullRepository(d.image), d.image.tag);
    if ImageRef(d.image) in available {
      OneChange(tail[0]);
    } else if pull !in registry {
      RefusedChanges(d.name, pull.0, pull.1, []);
      assert [Refused(d.name, 404), Pulled(pull.0, pull.1)] + [] == tail;
    } else {
      RefusedChanges(d.name, pull.0, pull.1, [CreateEvent(d.name, r, id)]);
      assert [Refused(d.name, 404), Pulled(pull.0, pull.1)] + [CreateEvent(d.name, r, id)] == tail;
      OneChange(CreateEvent(d.name, r, id));
    }
  }

  lemma OneChange(e: Event)
    ensures Changes([e]) == if IsChange(e) then [e] else []
  {
    assert [e][..0] == [];
  }

  /** A refused create and a pull change nothing. */
  lemma RefusedChanges(name: string, repository: string, tag: string, rest: seq<Event>)
    ensures Changes([Refused(name, 404), Pulled(repository, tag)] + rest) == Changes(rest)
  {
    var refused := [Refused(name, 404), Pulled(repository, tag)];
    NoChanges(refused);
    ChangesConcat(refused, rest);
  }

  /** A whole `create`, volume files included, changes containers only by
      its successful create call. */
  lemma CreateChanges(t: seq<Event>, tail: seq<Event>, available: set<string>, registry: map<(string, string), string>,
                      d: Declaration, r: Result<()>, id: string)
    requires CreateCalls(tail, available, registry, d, r, id)
    ensures Changes(t + Renders(d.volumes) + tail) == if r.Ok? then Changes(t) + [Created(d.name, id)] else Changes(t)
  {
    NoChanges(Renders(d.volumes));
    ChangesConcat(t, Renders(d.volumes));
    assert Changes(t + Renders(d.volumes)) == Changes(t);
    CallsChanges(tail, available, registry, d, r, id);
    ChangesConcat(t + Renders(d.volumes), tail);
    if r.Err? {
      assert Changes(t) + [] == Changes(t);
    }
  }

  /** A stop (when running) and a remove are both changes. */
  lemma RetireChanges(t: seq<Event>, up: bool, cid: string)
    ensures Changes(t + (if up then [Stopped(cid)] else []) + [Removed(cid)])
         == Changes(t) + ((if up then [Stopped(cid)] else []) + [Removed(cid)])
  {
    var stops := if up then [Stopped(cid)] else [];
    ChangesSnoc(t + stops, Removed(cid));
    if up {
      ChangesSnoc(t, Stopped(cid));
    } else {
      assert t + stops == t;
    }
  }

  /** At the index holding the name, the three functions above read directly. */
  lemma Cleared(entries: seq<Entry>, d: Declaration, n: nat)
    requires FindName(entries, d.name) == Some(n)
    ensures Vacated(entries, d.name) == RemoveAt(entries, n)
    ensures Retired(entries, d.name) == (if IsUp(entries[n].status) then [Stopped(entries[n].id)] else []) + [Removed(entries[n].id)]
    ensures Evicted(entries, d.name) == [Removed(entries[n].id)]
    ensures Kept(entries, d) <==> IsUp(entries[n].status) && SameAsDeclared(Some(entries[n].spec), d)
  {
  }

  /** The calls of one `create`: a create call when the image is there;
      otherwise the refused call and the pull, then, when the registry has
      the tag, exactly one more create call. */
  ghost predicate CreateCalls(tail: seq<Event>, available: set<string>, registry: map<(string, string), string>,
                              d: Declaration, r: Result<()>, id: string)
  {
    var pull := (FullRepository(d.image), d.image.tag);
    && (ImageRef(d.image) in available ==>
          (r.Ok? || r.error.ApiError?) && tail == [CreateEvent(d.name, r, id)])
    && (ImageRef(d.image) !in available && pull !in registry ==>
          r.Err? && r.error.DockerException? && tail == [Refused(d.name, 404), Pulled(pull.0, pull.1)])
    && (ImageRef(d.image) !in available && pull in registry ==>
          (r.Ok? || r.error.ApiError?) && tail == [Refused(d.name, 404), Pulled(pull.0, pull.1), CreateEvent(d.name, r, id)])
  }

  class Container {
    var decl: Declaration
    var id: string
    var status: string
    const daemon: Daemon      // the ship's Docker connection

    constructor (name: string, ship: Ship, image: Image, command: Option<string>, hostname: Option<string>,
                 ports: Dict<string, nat>, memory: int, volumes: seq<Volume>, env: Dict<string, string>,
                 extports: Dict<string, int>, portproto: Dict<string, string>, daemon: Daemon)
      ensures decl == Declaration(name, ship, image, command, Hostname(hostname, name, ship), ports, memory, volumes, env, extports, portproto)
      ensures id == "" && status == "not found" && this.daemon == daemon
    {
      decl := Declaration(name, ship, image, command, Hostname(hostname, name, ship), ports, memory, volumes, env, extports, portproto);
      id := "";
      status := "not found";
      this.daemon := daemon;
    }

    /** `__getstate__`: the declaration, which has no id and no status. */
    function GetState(): Declaration
      reads this
    {
      decl
    }

    /** `__setstate__`: takes every declared field from the state and forgets
        whatever id and status the container had. */
    method SetState(state: Declaration)
      modifies this
      ensures decl == state && id == "" && status == "not found"
    {
      decl := state;
      id := "";
      status := "not found";
    }

    predicate Running()
      reads this
    {
      IsUp(status)
    }

    /** `getvolume`: the first volume with that name. */
    method GetVolume(name: string) returns (r: Result<Volume>)
      ensures r.Err? <==> forall i :: 0 <= i < |decl.volumes| ==> decl.volumes[i].name != name
      ensures r.Err? ==> r.error.RuntimeError?
      ensures r.Ok? ==> exists i :: 0 <= i < |decl.volumes| && decl.volumes[i] == r.value && r.value.name == name
                           && forall j :: 0 <= j < i ==> decl.volumes[j].name != name
    {
      var i := 0;
      while i < |decl.volumes|
        invariant 0 <= i <= |decl.volumes|
        invariant forall j :: 0 <= j < i ==> decl.volumes[j].name != name
      {
        if decl.volumes[i].name == name {
          return Ok(decl.volumes[i]);
        }
        i := i + 1;
      }
      r := Err(RuntimeError("no such volume in container"));
    }

    /** `check`: takes id and status from the record given, or else from
        the daemon's container of the same name. */
    method Check(cinfo: Option<Dict<string, string>>)
      requires daemon.Valid()
      modifies this
      ensures decl == old(decl)
      ensures (id, status) == Recorded(old(id), old(status), if cinfo.Some? then cinfo else ListedRecord(FindListed(daemon.Listing(), decl.name)))
      ensures cinfo.None? && FindName(daemon.entries, decl.name).Some? ==>
        var e := daemon.entries[FindName(daemon.entries, decl.name).value];
        id == e.id && status == e.status
      ensures cinfo.None? && FindName(daemon.entries, decl.name).None? ==> id == "" && status == "not found"
    {
      var record := if cinfo.Some? then cinfo else ListedRecord(FindListed(daemon.Listing(), decl.name));
      if cinfo.None? {
        NamedRecord(daemon.entries, decl.name);
      }
      var fields := Recorded(id, status, record);
      id, status := fields.0, fields.1;
    }

    /** `stop`: the daemon stops the container, which is then 'stopped'. */
    method Stop() returns (r: Result<()>)
      requires daemon.Valid()
      modifies this, daemon
      ensures daemon.Valid() && decl == old(decl)
      ensures daemon.available == old(daemon.available) && daemon.registry == old(daemon.registry) && daemon.next == old(daemon.next)
      ensures FindId(old(daemon.entries), old(id)).None? ==>
        && r == Err(ApiError(404)) && id == old(id) && status == old(status)
        && daemon.entries == old(daemon.entries) && daemon.trace == old(daemon.trace)
      ensures FindId(old(daemon.entries), old(id)).Some? ==>
        var i := FindId(old(daemon.entries), old(id)).value;
        && r.Ok? && id == old(id) && status == "stopped" && !Running()
        && daemon.entries == old(daemon.entries)[i := old(daemon.entries)[i].(status := StatusAfterStop(old(daemon.entries)[i].status))]
        && daemon.trace == old(daemon.trace) + [Stopped(old(id))]
    {
      r := daemon.Stop(id);
      if r.Ok? {
        Check(Some([("Status", "stopped")]));
        DownStatuses();
      }
    }

    /** `remove`: the daemon removes the container, which is then not found. */
    method Remove(force: bool) returns (r: Result<()>)
      requires daemon.Valid()
      modifies this, daemon
      ensures daemon.Valid() && decl == old(decl)
      ensures daemon.available == old(daemon.available) && daemon.registry == old(daemon.registry) && daemon.next == old(daemon.next)
      ensures r.Err? ==>
        && id == old(id) && status == old(status)
        && daemon.entries == old(daemon.entries) && daemon.trace == old(daemon.trace)
      ensures FindId(old(daemon.entries), old(id)).None? ==> r == Err(ApiError(404))
      ensures FindId(old(daemon.entries), old(id)).Some? ==>
        var i := FindId(old(daemon.entries), old(id)).value;
        if IsUp(old(daemon.entries)[i].status) && !force then r == Err(ApiError(409))
        else
          && r.Ok? && id == "" && status == "not found"
          && daemon.entries == RemoveAt(old(daemon.entries), i)
          && daemon.trace == old(daemon.trace) + [Removed(old(id))]
    {
      r := daemon.Remove(id, force);
      if r.Ok? {
        Check(Some([("Id", ""), ("Status", "not found")]));
      }
    }

    /** `start`: the daemon starts the container with its port bindings and
        binds, and it is then 'Up'. */
    method Start(dirs: VolumeDirs) returns (r: Result<()>)
      requires daemon.Valid()
      modifies this, daemon
      ensures daemon.Valid() && decl == old(decl)
      ensures daemon.available == old(daemon.available) && daemon.registry == old(daemon.registry) && daemon.next == old(daemon.next)
      ensures FindId(old(daemon.entries), old(id)).None? ==>
        && r == Err(ApiError(404)) && id == old(id) && status == old(status)
        && daemon.entries == old(daemon.entries) && daemon.trace == old(daemon.trace)
      ensures FindId(old(daemon.entries), old(id)).Some? ==>
        var i := FindId(old(daemon.entries), old(id)).value;
        && r.Ok? && id == old(id) && status == "Up" && Running()
        && daemon.entries == old(daemon.entries)[i := old(daemon.entries)[i].(status := "Up", published := PortBindingsOf(decl), binds := BindsOf(decl, dirs))]
        && daemon.trace == old(daemon.trace) + [Started(old(id))]
    {
      r := daemon.Start(id, PortBindingsOf(decl), BindsOf(decl, dirs));
      if r.Ok? {
        Check(Some([("Status", "Up")]));
        assert StartsWith(status, "Up");
      }
    }
  
    /** Writes every volume's files, ahead of the create call. */
    method RenderVolumes()
      requires daemon.Valid()
      modifies daemon
      ensures daemon.Valid()
      ensures daemon.entries == old(daemon.entries) && daemon.available == old(daemon.available)
      ensures daemon.registry == old(daemon.registry) && daemon.next == old(daemon.next)
      ensures daemon.trace == old(daemon.trace) + Renders(decl.volumes)
    {
      var i := 0;
      while i < |decl.volumes|
        invariant 0 <= i <= |decl.volumes|
        invariant daemon.Valid()
        invariant daemon.entries == old(daemon.entries) && daemon.available == old(daemon.available)
        invariant daemon.registry == old(daemon.registry) && daemon.next == old(daemon.next)
        invariant daemon.trace == old(daemon.trace) + Renders(decl.volumes[..i])
      {
        daemon.NoteRender(decl.volumes[i].name);
        assert Renders(decl.volumes[..i + 1]) == Renders(decl.volumes[..i]) + [Rendered(decl.volumes[i].name)];
        i := i + 1;
      }
      assert decl.volumes[..i] == decl.volumes;
    }

    /** `create`: renders the volumes, asks the daemon for the container and,
        when the image is missing (404), pulls it once and asks once more.
        Any other refusal, a failed pull or a failed retry is returned. */
    method Create() returns (r: Result<()>, ghost tail: seq<Event>)
      requires daemon.Valid()
      modifies this, daemon
      ensures daemon.Valid() && decl == old(decl) && daemon.registry == old(daemon.registry)
      ensures Obtainable(old(daemon.available), daemon.registry, decl.image) ==> Obtainable(daemon.available, daemon.registry, decl.image)
      ensures r.Err? ==> id == old(id) && status == old(status) && daemon.entries == old(daemon.entries) && daemon.next == old(daemon.next)
      ensures !Obtainable(old(daemon.available), daemon.registry, decl.image) ==> r.Err? && r.error != ApiError(409)
      ensures Obtainable(old(daemon.available), daemon.registry, decl.image) && FindName(old(daemon.entries), decl.name).Some? ==>
        r == Err(ApiError(409))
      ensures Obtainable(old(daemon.available), daemon.registry, decl.image) && FindName(old(daemon.entries), decl.name).None? ==>
        && r.Ok? && status == old(status) && FindId(old(daemon.entries), id).None?
        && daemon.entries == old(daemon.entries) + [Entry(old(daemon.next), id, decl.name, "Created", SpecOf(decl), [], [])]
        && daemon.next == old(daemon.next) + 1
      ensures daemon.trace == old(daemon.trace) + Renders(decl.volumes) + tail
      ensures CreateCalls(tail, old(daemon.available), daemon.registry, decl, r, id)
      ensures Changes(daemon.trace) == if r.Ok? then Changes(old(daemon.trace)) + [Created(decl.name, id)] else Changes(old(daemon.trace))
    {
      RenderVolumes();
      r, tail := Obtain();
      CreateChanges(old(daemon.trace), tail, old(daemon.available), daemon.registry, decl, r, id);
    }

    /** The create call, then on 404 the pull and the one retry. */
    method Obtain() returns (r: Result<()>, ghost tail: seq<Event>)
      requires daemon.Valid()
      modifies this, daemon
      ensures daemon.Valid() && decl == old(decl) && daemon.registry == old(daemon.registry)
      ensures Obtainable(old(daemon.available), daemon.registry, decl.image) ==> Obtainable(daemon.available, daemon.registry, decl.image)
      ensures r.Err? ==> id == old(id) && status == old(status) && daemon.entries == old(daemon.entries) && daemon.next == old(daemon.next)
      ensures !Obtainable(old(daemon.available), daemon.registry, decl.image) ==> r.Err? && r.error != ApiError(409)
      ensures Obtainable(old(daemon.available), daemon.registry, decl.image) && FindName(old(daemon.entries), decl.name).Some? ==>
        r == Err(ApiError(409))
      ensures Obtainable(old(daemon.available), daemon.registry, decl.image) && FindName(old(daemon.entries), decl.name).None? ==>
        && r.Ok? && status == old(status) && FindId(old(daemon.entries), id).None?
        && daemon.entries == old(daemon.entries) + [Entry(old(daemon.next), id, decl.name, "Created", SpecOf(decl), [], [])]
        && daemon.next == old(daemon.next) + 1
      ensures daemon.trace == old(daemon.trace) + tail
      ensures CreateCalls(tail, old(daemon.available), daemon.registry, decl, r, id)
    {
      r := Attempt();
      tail := [CreateEvent(decl.name, r, id)];
      if r.Err? && r.error == ApiError(404) {
        var pulled := daemon.Pull(FullRepository(decl.image), decl.image.tag);
        tail := tail + [Pulled(FullRepository(decl.image), decl.image.tag)];
        if pulled.Err? {
          r := Err(pulled.error);
          return;
        }
        r := Attempt();
        tail := tail + [CreateEvent(decl.name, r, id)];
      }
    }

    /** One create call; on success the container takes the new id. */
    method Attempt() returns (r: Result<()>)
      requires daemon.Valid()
      modifies this, daemon
      ensures daemon.Valid() && decl == old(decl)
      ensures daemon.available == old(daemon.available) && daemon.registry == old(daemon.registry)
      ensures r.Ok? || r.error.ApiError?
      ensures daemon.trace == old(daemon.trace) + [CreateEvent(decl.name, r, id)]
      ensures r.Err? ==> id == old(id) && status == old(status) && daemon.entries == old(daemon.entries) && daemon.next == old(daemon.next)
      ensures ImageRef(decl.image) !in daemon.available ==> r == Err(ApiError(404))
      ensures ImageRef(decl.image) in daemon.available && FindName(old(daemon.entries), decl.name).Some? ==> r == Err(ApiError(409))
      ensures ImageRef(decl.image) in daemon.available && FindName(old(daemon.entries), decl.name).None? ==>
        && r.Ok? && status == old(status) && FindId(old(daemon.entries), id).None?
        && daemon.entries == old(daemon.entries) + [Entry(old(daemon.next), id, decl.name, "Created", SpecOf(decl), [], [])]
        && daemon.next == old(daemon.next) + 1
    {
      var created := daemon.Create(SpecOf(decl), decl.name);
      if created.Err? {
        r := Err(created.error);
        return;
      }
      Check(Some([("Id", created.value)]));
      r := Ok(());
    }

    /** `run`: creates the container; when the name is taken (409) it looks
        at the container there: one running what was declared is kept and
        nothing else happens; one running something else is stopped; either
        way the old one is removed and a new one created. Then it starts. */
    method Run(dirs: VolumeDirs) returns (r: Result<()>)
      requires daemon.Valid()
      modifies this, daemon
      ensures daemon.Valid() && decl == old(decl) && daemon.registry == old(daemon.registry)
      ensures !Obtainable(old(daemon.available), daemon.registry, decl.image) ==>
        && r.Err? && r.error != ApiError(409)
        && daemon.entries == old(daemon.entries) && Changes(daemon.trace) == Changes(old(daemon.trace))
      ensures Obtainable(old(daemon.available), daemon.registry, decl.image) ==> r.Ok? && Running()
      ensures Obtainable(old(daemon.available), daemon.registry, decl.image) && Kept(old(daemon.entries), decl) ==>
        var e := old(daemon.entries)[FindName(old(daemon.entries), decl.name).value];
        && id == e.id && status == e.status
        && daemon.entries == old(daemon.entries) && Changes(daemon.trace) == Changes(old(daemon.trace))
      ensures Obtainable(old(daemon.available), daemon.registry, decl.image) && !Kept(old(daemon.entries), decl) ==>
        && daemon.entries == Vacated(old(daemon.entries), decl.name) + [Launched(decl, dirs, old(daemon.next), id)]
        && Changes(daemon.trace) == Changes(old(daemon.trace)) + Retired(old(daemon.entries), decl.name) + [Created(decl.name, id), Started(id)]
    {
      var keep;
      r, keep := Establish();
      if keep || r.Err? {
        return;
      }
      r := Launch(dirs, Vacated(old(daemon.entries), decl.name), old(daemon.next));
      Snoc2(Changes(old(daemon.trace)) + Retired(old(daemon.entries), decl.name), Created(decl.name, id), Started(id));
    }

    /** The part of `run` before the start: the create and, when the name is
        taken, the recovery. Either the container found is kept, or a new
        one stands in the place of whatever held the name. */
    method Establish() returns (r: Result<()>, keep: bool)
      requires daemon.Valid()
      modifies this, daemon
      ensures daemon.Valid() && decl == old(decl) && daemon.registry == old(daemon.registry)
      ensures !Obtainable(old(daemon.available), daemon.registry, decl.image) ==>
        && r.Err? && r.error != ApiError(409) && !keep
        && daemon.entries == old(daemon.entries) && Changes(daemon.trace) == Changes(old(daemon.trace))
      ensures Obtainable(old(daemon.available), daemon.registry, decl.image) ==> r.Ok? && (keep <==> Kept(old(daemon.entries), decl))
      ensures keep ==>
        var e := old(daemon.entries)[FindName(old(daemon.entries), decl.name).value];
        && id == e.id && status == e.status && IsUp(status)
        && daemon.entries == old(daemon.entries) && Changes(daemon.trace) == Changes(old(daemon.trace))
      ensures Obtainable(old(daemon.available), daemon.registry, decl.image) && !keep ==>
        && FindId(Vacated(old(daemon.entries), decl.name), id).None?
        && daemon.entries == Vacated(old(daemon.entries), decl.name) + [Entry(old(daemon.next), id, decl.name, "Created", SpecOf(decl), [], [])]
        && Changes(daemon.trace) == Changes(old(daemon.trace)) + Retired(old(daemon.entries), decl.name) + [Created(decl.name, id)]
    {
      keep := false;
      ghost var tail;
      r, tail := Create();
      if r.Err? && r.error == ApiError(409) {
        r, keep := Recover();
      }
    }

    /** Starts the container just created. */
    method Launch(dirs: VolumeDirs, ghost prefix: seq<Entry>, ghost serial: nat) returns (r: Result<()>)
      requires daemon.Valid()
      requires daemon.entries == prefix + [Entry(serial, id, decl.name, "Created", SpecOf(decl), [], [])]
      requires FindId(prefix, id).None?
      modifies this, daemon
      ensures daemon.Valid() && decl == old(decl)
      ensures daemon.available == old(daemon.available) && daemon.registry == old(daemon.registry) && daemon.next == old(daemon.next)
      ensures r.Ok? && Running() && id == old(id)
      ensures daemon.entries == prefix + [Launched(decl, dirs, serial, id)]
      ensures Changes(daemon.trace) == Changes(old(daemon.trace)) + [Started(id)]
    {
      ghost var created := Entry(serial, id, decl.name, "Created", SpecOf(decl), [], []);
      LastEntry(prefix, created, Launched(decl, dirs, serial, id));
      r := Start(dirs);
      ChangesSnoc(old(daemon.trace), Started(id));
    }

    /** What `run` does once the name is found taken: checks, keeps a
        running container that runs what was declared, and otherwise stops it
        when running, removes it and creates anew. */
    method Recover() returns (r: Result<()>, keep: bool)
      requires daemon.Valid() && FindName(daemon.entries, decl.name).Some?
      modifies this, daemon
      ensures daemon.Valid() && decl == old(decl) && daemon.registry == old(daemon.registry)
      ensures Obtainable(old(daemon.available), daemon.registry, decl.image) ==> Obtainable(daemon.available, daemon.registry, decl.image)
      ensures keep <==> Kept(old(daemon.entries), decl)
      ensures keep ==>
        var e := old(daemon.entries)[FindName(old(daemon.entries), decl.name).value];
        && r.Ok? && id == e.id && status == e.status && IsUp(status)
        && daemon.entries == old(daemon.entries) && Changes(daemon.trace) == Changes(old(daemon.trace))
      ensures !keep && Obtainable(old(daemon.available), daemon.registry, decl.image) ==>
        && r.Ok? && FindId(Vacated(old(daemon.entries), decl.name), id).None?
        && daemon.entries == Vacated(old(daemon.entries), decl.name) + [Entry(old(daemon.next), id, decl.name, "Created", SpecOf(decl), [], [])]
        && Changes(daemon.trace) == Changes(old(daemon.trace)) + Retired(old(daemon.entries), decl.name) + [Created(decl.name, id)]
    {
      ghost var n := FindName(daemon.entries, decl.name).value;
      Cleared(daemon.entries, decl, n);
      Check(None);
      daemon.IdsDistinct();
      FindIdUnique(daemon.entries, n);
      keep := false;
      if id != "" {
        keep := Running() && SameAsDeclared(daemon.Inspect(id), decl);
        if keep {
          r := Ok(());
          return;
        }
      }
      r := Replace();
    }

    /** Clears the container's name, then creates anew. */
    method Replace() returns (r: Result<()>)
      requires daemon.Valid() && FindId(daemon.entries, id).Some?
      requires status == daemon.entries[FindId(daemon.entries, id).value].status
      requires daemon.entries[FindId(daemon.entries, id).value].name == decl.name
      modifies this, daemon
      ensures daemon.Valid() && decl == old(decl) && daemon.registry == old(daemon.registry)
      ensures Obtainable(old(daemon.available), daemon.registry, decl.image) ==> Obtainable(daemon.available, daemon.registry, decl.image)
      ensures Obtainable(old(daemon.available), daemon.registry, decl.image) ==>
        var i := FindId(old(daemon.entries), old(id)).value;
        var e := old(daemon.entries)[i];
        && r.Ok? && FindId(RemoveAt(old(daemon.entries), i), id).None?
        && daemon.entries == RemoveAt(old(daemon.entries), i) + [Entry(old(daemon.next), id, decl.name, "Created", SpecOf(decl), [], [])]
        && Changes(daemon.trace) == Changes(old(daemon.trace)) + ((if IsUp(e.status) then [Stopped(e.id)] else []) + [Removed(e.id)]) + [Created(decl.name, id)]
    {
      ghost var i := FindId(daemon.entries, id).value;
      RemoveNamed(daemon.entries, i);
      ghost var t0 := daemon.trace;
      ghost var e := daemon.entries[i];
      if id != "" {
        Discard();
      }
      RetireChanges(t0, IsUp(e.status), e.id);
      ghost var tail;
      r, tail := Create();
    }

    /** Stops the container when it runs, then removes it: on a container
        just checked against the daemon, neither call can fail. */
    method Discard()
      requires daemon.Valid() && FindId(daemon.entries, id).Some?
      requires status == daemon.entries[FindId(daemon.entries, id).value].status
      modifies this, daemon
      ensures daemon.Valid() && decl == old(decl)
      ensures daemon.available == old(daemon.available) && daemon.registry == old(daemon.registry) && daemon.next == old(daemon.next)
      ensures
        var i := FindId(old(daemon.entries), old(id)).value;
        var e := old(daemon.entries)[i];
        && daemon.entries == RemoveAt(old(daemon.entries), i)
        && daemon.trace == old(daemon.trace) + (if IsUp(e.status) then [Stopped(e.id)] else []) + [Removed(e.id)]
    {
      ghost var i := FindId(daemon.entries, id).value;
      if Running() {
        ghost var e0 := daemon.entries;
        var stopped := Stop();
        StatusKeepsLookups(e0, i, "Exited", id, decl.name);
        DownStatuses();
      }
      var removed := Remove(false);
    }

    /** `execute`, the context manager behind a one-off run: creates the
        container and, on a name clash (409), removes whatever holds the
        name, running or not, and creates anew; starts it; and on the way
        out, whatever happened before, stops the container it then names,
        ignoring any failure. */
    method Execute(dirs: VolumeDirs) returns (r: Result<()>)
      requires daemon.Valid()
      modifies this, daemon
      ensures daemon.Valid() && decl == old(decl) && daemon.registry == old(daemon.registry)
      ensures !Obtainable(old(daemon.available), daemon.registry, decl.image) ==>
        && r.Err? && r.error != ApiError(409) && id == old(id)
        && (FindId(old(daemon.entries), old(id)).None? ==>
              daemon.entries == old(daemon.entries) && Changes(daemon.trace) == Changes(old(daemon.trace)))
        && (FindId(old(daemon.entries), old(id)).Some? ==>
              var i := FindId(old(daemon.entries), old(id)).value;
              && daemon.entries == old(daemon.entries)[i := old(daemon.entries)[i].(status := StatusAfterStop(old(daemon.entries)[i].status))]
              && Changes(daemon.trace) == Changes(old(daemon.trace)) + [Stopped(old(id))])
      ensures Obtainable(old(daemon.available), daemon.registry, decl.image) ==>
        && r.Ok? && !Running()
        && daemon.entries == Vacated(old(daemon.entries), decl.name) + [Launched(decl, dirs, old(daemon.next), id).(status := "Exited")]
        && Changes(daemon.trace) == Changes(old(daemon.trace)) + Evicted(old(daemon.entries), decl.name) + [Created(decl.name, id), Started(id), Stopped(id)]
    {
      r := Prepare();
      if r.Ok? {
        r := Launch(dirs, Vacated(old(daemon.entries), decl.name), old(daemon.next));
        LastEntry(Vacated(old(daemon.entries), decl.name), Launched(decl, dirs, old(daemon.next), id),
                  Launched(decl, dirs, old(daemon.next), id).(status := "Exited"));
      }
      ghost var t := daemon.trace;
      var stopped := Stop();
      ChangesSnoc(t, Stopped(id));
      if r.Ok? {
        Snoc3(Changes(old(daemon.trace)) + Evicted(old(daemon.entries), decl.name), Created(decl.name, id), Started(id), Stopped(id));
      }
    }

    /** The create of `execute`: on a name clash, whatever holds the name is
        removed and the create is tried once more. */
    method Prepare() returns (r: Result<()>)
      requires daemon.Valid()
      modifies this, daemon
      ensures daemon.Valid() && decl == old(decl) && daemon.registry == old(daemon.registry)
      ensures !Obtainable(old(daemon.available), daemon.registry, decl.image) ==>
        && r.Err? && r.error != ApiError(409) && id == old(id) && status == old(status)
        && daemon.entries == old(daemon.entries) && Changes(daemon.trace) == Changes(old(daemon.trace))
      ensures Obtainable(old(daemon.available), daemon.registry, decl.image) ==>
        && r.Ok? && FindId(Vacated(old(daemon.entries), decl.name), id).None?
        && daemon.entries == Vacated(old(daemon.entries), decl.name) + [Entry(old(daemon.next), id, decl.name, "Created", SpecOf(decl), [], [])]
        && Changes(daemon.trace) == Changes(old(daemon.trace)) + Evicted(old(daemon.entries), decl.name) + [Created(decl.name, id)]
    {
      ghost var tail;
      r, tail := Create();
      if r.Err? && r.error == ApiError(409) {
        r := Evict();
        if r.Err? {
          return;
        }
        r, tail := Create();
      }
    }

    /** `check`, then a forced `remove`: the container holding the name goes,
        running or not. */
    method Evict() returns (r: Result<()>)
      requires daemon.Valid() && FindName(daemon.entries, decl.name).Some?
      modifies this, daemon
      ensures daemon.Valid() && decl == old(decl)
      ensures daemon.available == old(daemon.available) && daemon.registry == old(daemon.registry) && daemon.next == old(daemon.next)
      ensures r.Ok? && daemon.entries == Vacated(old(daemon.entries), decl.name) && FindName(daemon.entries, decl.name).None?
      ensures Changes(daemon.trace) == Changes(old(daemon.trace)) + Evicted(old(daemon.entries), decl.name)
    {
      ghost var n := FindName(daemon.entries, decl.name).value;
      Cleared(daemon.entries, decl, n);
      RemoveNamed(daemon.entries, n);
      Check(None);
      daemon.IdsDistinct();
      FindIdUnique(daemon.entries, n);
      ghost var t := daemon.trace;
      ghost var gone := id;
      r := Remove(true);
      ChangesSnoc(t, Removed(gone));
    }
}
}
