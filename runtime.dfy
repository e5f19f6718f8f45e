/** The Docker daemon of a ship, as far as the container lifecycle sees it:
    named containers with an id, a status and the specification they were
    created from, the image references it holds, and what a pull from the
    registry would bring. Every call issued to it is logged in a ghost trace.
    Calls answer as the Docker remote API does: 404 for an unknown image or
    container, 409 for a name in use or removing a running container
    without force. */
module Runtime {
  import opened Wrappers
  import opened Text
  import opened Dicts

  /** What `create_container` is asked for. */
  datatype CreateSpec = CreateSpec(
    image: string,               // 'repository:id'
    hostname: string,
    command: Option<string>,
    memory: int,
    env: Dict<string, string>,
    ports: seq<nat>)

  /** `port_bindings` of `start`: `'port/proto'` to `(host address, host port)`. */
  type PortBindings = Dict<string, (string, int)>

  /** `binds` of `start`: host path to (mount point, read-only). */
  type Binds = Dict<string, (string, bool)>

  datatype Entry = Entry(
    serial: nat,                 // the daemon's own counter when it was created
    id: string,
    name: string,
    status: string,
    spec: CreateSpec,
    published: PortBindings,
    binds: Binds)

  /** One entry of `containers(all=True)`. */
  datatype Listed = Listed(names: seq<string>, id: string, status: string)

  /** The calls issued to the daemon, with their outcome. */
  datatype Event =
    | Created(name: string, id: string)
    | Refused(name: string, status: int)   // a create call answered with an error
    | Started(id: string)
    | Stopped(id: string)
    | Removed(id: string)
    | Pulled(repository: string, tag: string)
    | Rendered(volume: string)             // a volume's files written before a create

  /** The calls that change containers: a successful create, start, stop or remove. */
  predicate IsChange(e: Event) {
    e.Created? || e.Started? || e.Stopped? || e.Removed?
  }

  /** The container-changing calls of a trace, in order. */
  function Changes(t: seq<Event>): seq<Event> {
    if |t| == 0 then []
    else
      var last := t[|t| - 1];
      Changes(t[..|t| - 1]) + (if IsChange(last) then [last] else [])
  }

  lemma {:induction false} ChangesConcat(a: seq<Event>, b: seq<Event>)
    ensures Changes(a + b) == Changes(a) + Changes(b)
  {
    if |b| > 0 {
      assert (a + b)[..|a + b| - 1] == a + b[..|b| - 1];
      ChangesConcat(a, b[..|b| - 1]);
    } else {
      assert a + b == a;
    }
  }

  lemma ChangesSnoc(t: seq<Event>, e: Event)
    ensures Changes(t + [e]) == Changes(t) + (if IsChange(e) then [e] else [])
  {
    assert (t + [e])[..|t|] == t;
  }

  /** Two or three events appended one by one are the events appended
      together; stated apart so that the large trace proofs see only this
      instance. */
  lemma Snoc2(a: seq<Event>, x: Event, y: Event)
    ensures a + [x] + [y] == a + [x, y]
  {
  }

  lemma Snoc3(a: seq<Event>, x: Event, y: Event, z: Event)
    ensures a + [x] + [y] + [z] == a + [x, y, z]
  {
  }

  lemma {:induction false} NoChanges(t: seq<Event>)
    requires forall i :: 0 <= i < |t| ==> !IsChange(t[i])
    ensures Changes(t) == []
  {
    if |t| > 0 {
      NoChanges(t[..|t| - 1]);
    }
  }

  /** Docker's status text says "Up ..." while a container runs. */
  predicate IsUp(status: string) {
    IsInfix("Up", status)
  }

  /** The status after a stop: "Exited" for a running container, otherwise unchanged. */
  function StatusAfterStop(status: string): (r: string)
    ensures !IsUp(r)
    ensures !IsUp(status) ==> r == status
  {
    if IsUp(status) then DownStatuses(); "Exited" else status
  }

  /** The ids the daemon hands out: distinct and never empty. */
  function IdOf(serial: nat): (id: string)
    ensures id != ""
  {
    Decimal(serial)
  }

  lemma IdOfInjective(a: nat, b: nat)
    requires IdOf(a) == IdOf(b)
    ensures a == b
  {
    ParseDecimal(a);
    ParseDecimal(b);
  }

  function FindId(entries: seq<Entry>, id: string): (r: Option<nat>)
    ensures r.None? <==> forall i :: 0 <= i < |entries| ==> entries[i].id != id
    ensures r.Some? ==> r.value < |entries| && entries[r.value].id == id
    ensures r.Some? ==> forall j :: 0 <= j < r.value ==> entries[j].id != id
  {
    if |entries| == 0 then None
    else if entries[0].id == id then Some(0)
    else match FindId(entries[1..], id)
      case None => assert forall i :: 1 <= i < |entries| ==> entries[i] == entries[1..][i - 1]; None
      case Some(i) => Some(i + 1)
  }

  function FindName(entries: seq<Entry>, name: string): (r: Option<nat>)
    ensures r.None? <==> forall i :: 0 <= i < |entries| ==> entries[i].name != name
    ensures r.Some? ==> r.value < |entries| && entries[r.value].name == name
    ensures r.Some? ==> forall j :: 0 <= j < r.value ==> entries[j].name != name
  {
    if |entries| == 0 then None
    else if entries[0].name == name then Some(0)
    else match FindName(entries[1..], name)
      case None => assert forall i :: 1 <= i < |entries| ==> entries[i] == entries[1..][i - 1]; None
      case Some(i) => Some(i + 1)
  }

  /** In a list without repeated names, a name found is the one there. */
  lemma FindNameUnique(entries: seq<Entry>, i: nat)
    requires i < |entries|
    requires forall a, b :: 0 <= a < b < |entries| ==> entries[a].name != entries[b].name
    ensures FindName(entries, entries[i].name) == Some(i)
  {
  }

  lemma FindIdUnique(entries: seq<Entry>, i: nat)
    requires i < |entries|
    requires forall a, b :: 0 <= a < b < |entries| ==> entries[a].id != entries[b].id
    ensures FindId(entries, entries[i].id) == Some(i)
  {
  }

  function RemoveAt(entries: seq<Entry>, i: nat): (r: seq<Entry>)
    requires i < |entries|
    ensures |r| == |entries| - 1
    ensures forall a :: 0 <= a < |r| ==> r[a] == if a < i then entries[a] else entries[a + 1]
  {
    entries[..i] + entries[i + 1..]
  }

  /** Once the only container with a name is removed, the name is free. */
  lemma RemoveNamed(entries: seq<Entry>, i: nat)
    requires i < |entries|
    requires forall a, b :: 0 <= a < b < |entries| ==> entries[a].name != entries[b].name
    ensures FindName(RemoveAt(entries, i), entries[i].name).None?
  {
  }

  /** The entry appended last is the one its id finds, and replacing it
      replaces the last element. */
  lemma LastEntry(prefix: seq<Entry>, x: Entry, y: Entry)
    requires FindId(prefix, x.id).None?
    ensures FindId(prefix + [x], x.id) == Some(|prefix|)
    ensures (prefix + [x])[|prefix| := y] == prefix + [y]
  {
    FindLast(prefix, x);
    ReplaceLast(prefix, x, y);
  }

  lemma FindLast(prefix: seq<Entry>, x: Entry)
    requires FindId(prefix, x.id).None?
    ensures FindId(prefix + [x], x.id) == Some(|prefix|)
  {
    var s := prefix + [x];
    assert s[|prefix|].id == x.id;
    assert forall j :: 0 <= j < |prefix| ==> s[j] == prefix[j];
  }

  lemma ReplaceLast(prefix: seq<Entry>, x: Entry, y: Entry)
    ensures (prefix + [x])[|prefix| := y] == prefix + [y]
  {
    var s := (prefix + [x])[|prefix| := y];
    assert forall j :: 0 <= j < |s| ==> s[j] == (prefix + [y])[j];
  }

  /** Removing the element appended last gives back what it was appended to. */
  lemma RemoveLast(prefix: seq<Entry>, x: Entry)
    ensures RemoveAt(prefix + [x], |prefix|) == prefix
  {
    assert (prefix + [x])[..|prefix|] == prefix;
  }

  /** A status change keeps every lookup by id or by name. */
  lemma StatusKeepsLookups(entries: seq<Entry>, i: nat, status: string, id: string, name: string)
    requires i < |entries|
    ensures FindId(entries[i := entries[i].(status := status)], id) == FindId(entries, id)
    ensures FindName(entries[i := entries[i].(status := status)], name) == FindName(entries, name)
    ensures RemoveAt(entries[i := entries[i].(status := status)], i) == RemoveAt(entries, i)
  {
    var e := entries[i := entries[i].(status := status)];
    assert forall a :: 0 <= a < |e| ==> e[a].id == entries[a].id && e[a].name == entries[a].name;
  }

  /** Removing one entry keeps serials below `next`, ids from serials and
      names and serials distinct. */
  lemma RemoveKeepsDistinct(entries: seq<Entry>, i: nat, next: nat)
    requires i < |entries|
    requires forall a :: 0 <= a < |entries| ==> entries[a].serial < next && entries[a].id == IdOf(entries[a].serial)
    requires forall a, b :: 0 <= a < b < |entries| ==> entries[a].serial != entries[b].serial && entries[a].name != entries[b].name
    ensures forall a :: 0 <= a < |RemoveAt(entries, i)| ==>
      RemoveAt(entries, i)[a].serial < next && RemoveAt(entries, i)[a].id == IdOf(RemoveAt(entries, i)[a].serial)
    ensures forall a, b :: 0 <= a < b < |RemoveAt(entries, i)| ==>
      RemoveAt(entries, i)[a].serial != RemoveAt(entries, i)[b].serial && RemoveAt(entries, i)[a].name != RemoveAt(entries, i)[b].name
  {
    var r := RemoveAt(entries, i);
    assert forall a :: 0 <= a < |r| ==> r[a] == if a < i then entries[a] else entries[a + 1];
  }

  /** A status without an 'U' is not a running one. */
  lemma {:induction false} NotUp(status: string)
    requires 'U' !in status
    ensures !IsUp(status)
    decreases |status|
  {
    if |status| > 0 {
      NotUp(status[1..]);
      assert "Up"[0] == 'U' && status[0] != 'U';
      assert |status| >= 2 ==> status[..2][0] == status[0];
    }
  }

  /** The statuses `stop` leaves are not running ones. */
  lemma DownStatuses()
    ensures !IsUp("Exited") && !IsUp("stopped")
  {
    NotUp("Exited");
    NotUp("stopped");
  }

  /** `containers(all=True)`: each container under its name with a leading '/'. */
  function ListingOf(entries: seq<Entry>): (r: seq<Listed>)
    ensures |r| == |entries|
    ensures forall i :: 0 <= i < |entries| ==> r[i] == Listed(["/" + entries[i].name], entries[i].id, entries[i].status)
  {
    seq(|entries|, i requires 0 <= i < |entries| => Listed(["/" + entries[i].name], entries[i].id, entries[i].status))
  }

  class Daemon {
    var entries: seq<Entry>
    var available: set<string>                       // image references held, 'repository:id'
    var registry: map<(string, string), string>      // (repository, tag) to the id a pull brings
    var next: nat
    ghost var trace: seq<Event>

    /** Names and serials are distinct, and every id comes from its serial. */
    ghost predicate Valid()
      reads this
    {
      && (forall i :: 0 <= i < |entries| ==> entries[i].serial < next && entries[i].id == IdOf(entries[i].serial))
      && (forall i, j :: 0 <= i < j < |entries| ==> entries[i].serial != entries[j].serial && entries[i].name != entries[j].name)
    }

    constructor (available: set<string>, registry: map<(string, string), string>)
      ensures Valid()
      ensures entries == [] && this.available == available && this.registry == registry && trace == []
    {
      entries := [];
      this.available := available;
      this.registry := registry;
      next := 0;
      trace := [];
    }

    /** Distinct entries have distinct ids. */
    lemma IdsDistinct()
      requires Valid()
      ensures forall i, j :: 0 <= i < j < |entries| ==> entries[i].id != entries[j].id
    {
      forall i, j | 0 <= i < j < |entries| ensures entries[i].id != entries[j].id {
        if entries[i].id == entries[j].id {
          IdOfInjective(entries[i].serial, entries[j].serial);
        }
      }
    }

    function Listing(): seq<Listed>
      reads this
    {
      ListingOf(entries)
    }

    /** `inspect_container`, as far as the reconciliation looks at it: the
        specification the container was created from. */
    function Inspect(id: string): (r: Option<CreateSpec>)
      reads this
      ensures r.Some? <==> FindId(entries, id).Some?
    {
      match FindId(entries, id)
      case None => None
      case Some(i) => Some(entries[i].spec)
    }

    /** `create_container`: an image the daemon does not hold is refused with
        404, a name in use with 409; otherwise a new container with a fresh
        id is added, not yet running. */
    method Create(spec: CreateSpec, name: string) returns (r: Result<string>)
      requires Valid()
      modifies this
      ensures Valid()
      ensures available == old(available) && registry == old(registry)
      ensures spec.image !in available ==>
        r == Err(ApiError(404)) && entries == old(entries) && next == old(next) && trace == old(trace) + [Refused(name, 404)]
      ensures spec.image in available && FindName(old(entries), name).Some? ==>
        r == Err(ApiError(409)) && entries == old(entries) && next == old(next) && trace == old(trace) + [Refused(name, 409)]
      ensures spec.image in available && FindName(old(entries), name).None? ==>
        && r.Ok? && r.value != ""
        && FindId(old(entries), r.value).None?
        && entries == old(entries) + [Entry(old(next), r.value, name, "Created", spec, [], [])]
        && next == old(next) + 1
        && trace == old(trace) + [Created(name, r.value)]
    {
      if spec.image !in available {
        r := Err(ApiError(404));
        trace := trace + [Refused(name, 404)];
        return;
      }
      if FindName(entries, name).Some? {
        r := Err(ApiError(409));
        trace := trace + [Refused(name, 409)];
        return;
      }
      var id := IdOf(next);
      forall i | 0 <= i < |entries| ensures entries[i].id != id {
        if entries[i].id == id {
          IdOfInjective(entries[i].serial, next);
        }
      }
      entries := entries + [Entry(next, id, name, "Created", spec, [], [])];
      next := next + 1;
      trace := trace + [Created(name, id)];
      r := Ok(id);
    }

    /** `start`: the container runs, with the given port bindings and binds. */
    method Start(id: string, published: PortBindings, binds: Binds) returns (r: Result<()>)
      requires Valid()
      modifies this
      ensures Valid()
      ensures available == old(available) && registry == old(registry) && next == old(next)
      ensures FindId(old(entries), id).None? ==> r == Err(ApiError(404)) && entries == old(entries) && trace == old(trace)
      ensures FindId(old(entries), id).Some? ==>
        var i := FindId(old(entries), id).value;
        && r.Ok?
        && entries == old(entries)[i := old(entries)[i].(status := "Up", published := published, binds := binds)]
        && trace == old(trace) + [Started(id)]
    {
      var found := FindId(entries, id);
      if found.None? {
        r := Err(ApiError(404));
        return;
      }
      var i := found.value;
      entries := entries[i := entries[i].(status := "Up", published := published, binds := binds)];
      trace := trace + [Started(id)];
      r := Ok(());
    }

    /** `stop`: a running container exits; one that is not up is left as it
      was (Docker answers 304 Not Modified, which is no error). */
    method Stop(id: string) returns (r: Result<()>)
      requires Valid()
      modifies this
      ensures Valid()
      ensures available == old(available) && registry == old(registry) && next == old(next)
      ensures FindId(old(entries), id).None? ==> r == Err(ApiError(404)) && entries == old(entries) && trace == old(trace)
      ensures FindId(old(entries), id).Some? ==>
        var i := FindId(old(entries), id).value;
        && r.Ok?
        && entries == old(entries)[i := old(entries)[i].(status := StatusAfterStop(old(entries)[i].status))]
        && trace == old(trace) + [Stopped(id)]
    {
      var found := FindId(entries, id);
      if found.None? {
        r := Err(ApiError(404));
        return;
      }
      var i := found.value;
      entries := entries[i := entries[i].(status := StatusAfterStop(entries[i].status))];
      trace := trace + [Stopped(id)];
      r := Ok(());
    }

    /** `remove_container`: a running container is only removed with force. */
    method Remove(id: string, force: bool) returns (r: Result<()>)
      requires Valid()
      modifies this
      ensures Valid()
      ensures available == old(available) && registry == old(registry) && next == old(next)
      ensures FindId(old(entries), id).None? ==> r == Err(ApiError(404)) && entries == old(entries) && trace == old(trace)
      ensures FindId(old(entries), id).Some? && IsUp(old(entries)[FindId(old(entries), id).value].status) && !force ==>
        r == Err(ApiError(409)) && entries == old(entries) && trace == old(trace)
      ensures FindId(old(entries), id).Some? && (!IsUp(old(entries)[FindId(old(entries), id).value].status) || force) ==>
        r.Ok? && entries == RemoveAt(old(entries), FindId(old(entries), id).value) && trace == old(trace) + [Removed(id)]
    {
      var found := FindId(entries, id);
      if found.None? {
        r := Err(ApiError(404));
        return;
      }
      var i := found.value;
      if IsUp(entries[i].status) && !force {
        r := Err(ApiError(409));
        return;
      }
      RemoveKeepsDistinct(entries, i, next);
      entries := RemoveAt(entries, i);
      trace := trace + [Removed(id)];
      r := Ok(());
    }

    /** `pull`: brings the id the registry holds for the tag, reachable by
        either reference; a tag the registry does not know fails the
        streamed operation. */
    method Pull(repository: string, tag: string) returns (r: Result<()>)
      requires Valid()
      modifies this
      ensures Valid()
      ensures entries == old(entries) && registry == old(registry) && next == old(next)
      ensures trace == old(trace) + [Pulled(repository, tag)]
      ensures (repository, tag) in registry ==> r.Ok? && available == old(available) + Pulls(registry, repository, tag)
      ensures (repository, tag) !in registry ==> r.Err? && r.error.DockerException? && available == old(available)
    {
      trace := trace + [Pulled(repository, tag)];
      if (repository, tag) in registry {
        available := available + Pulls(registry, repository, tag);
        r := Ok(());
      } else {
        r := Err(DockerException("could not complete pull operation"));
      }
    }

    /** Notes that a volume's files were written, for the order of events. */
    ghost method NoteRender(volume: string)
      requires Valid()
      modifies this
      ensures Valid()
      ensures entries == old(entries) && available == old(available) && registry == old(registry) && next == old(next)
      ensures trace == old(trace) + [Rendered(volume)]
    {
      trace := trace + [Rendered(volume)];
    }
  }

  /** The references a pull of a known tag makes available: by id and by tag. */
  function Pulls(registry: map<(string, string), string>, repository: string, tag: string): (refs: set<string>)
    requires (repository, tag) in registry
    ensures repository + ":" + tag in refs
  {
    {repository + ":" + registry[(repository, tag)], repository + ":" + tag}
  }

  /** The first listed container whose first name, without its leading '/',
      is `name` (a listing entry without names is skipped). */
  function FindListed(listing: seq<Listed>, name: string): (r: Option<Listed>)
    ensures r.Some? ==> r.value in listing && |r.value.names| > 0 && DropSlash(r.value.names[0]) == name
    ensures r.None? <==> forall i :: 0 <= i < |listing| ==> !(|listing[i].names| > 0 && DropSlash(listing[i].names[0]) == name)
  {
    if |listing| == 0 then None
    else if |listing[0].names| > 0 && DropSlash(listing[0].names[0]) == name then Some(listing[0])
    else
      var r := FindListed(listing[1..], name);
      assert forall i :: 1 <= i < |listing| ==> listing[i] == listing[1..][i - 1];
      r
  }

  /** `s[1:]`. */
  function DropSlash(s: string): string {
    if |s| == 0 then "" else s[1..]
  }

  /** The daemon's listing finds a container by name exactly when it has one,
      and then reports its id and status. */
  lemma ListingFindsByName(entries: seq<Entry>, name: string)
    requires forall a, b :: 0 <= a < b < |entries| ==> entries[a].name != entries[b].name
    ensures FindListed(ListingOf(entries), name).None? <==> FindName(entries, name).None?
    ensures FindName(entries, name).Some? ==>
      var e := entries[FindName(entries, name).value];
      FindListed(ListingOf(entries), name) == Some(Listed(["/" + name], e.id, e.status))
  {
    var listing := ListingOf(entries);
    forall i | 0 <= i < |entries| ensures DropSlash(listing[i].names[0]) == entries[i].name {
      assert ("/" + entries[i].name)[1..] == entries[i].name;
    }
    if FindName(entries, name).Some? {
      FirstListed(entries, name, FindName(entries, name).value);
    }
  }

  lemma {:induction false} FirstListed(entries: seq<Entry>, name: string, k: nat)
    requires k < |entries| && entries[k].name == name
    requires forall i :: 0 <= i < k ==> entries[i].name != name
    requires forall i :: 0 <= i < |entries| ==> DropSlash(ListingOf(entries)[i].names[0]) == entries[i].name
    ensures FindListed(ListingOf(entries), name) == Some(ListingOf(entries)[k])
  {
    var listing := ListingOf(entries);
    if k > 0 {
      assert listing[1..] == ListingOf(entries[1..]);
      FirstListed(entries[1..], name, k - 1);
    }
  }
}
