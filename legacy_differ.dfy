/** The older differencer of dominator/utils.py, written against the
    `Container` of dominator/entities/__init__.py (logical ports with
    separate host ports and protocols, a list of volumes). It reports
    nested items: a changed scalar, or a named group of further items. */
module LegacyDiffer {
  import opened Wrappers
  import opened Values
  import opened Text
  import opened Dicts
  import Differ

  /** `(key, expected, actual)`, `(key, [items])`, or a file's `(name, [lines])`. */
  datatype Item =
    | Change(key: string, expected: Val, actual: Val)
    | Group(key: string, items: seq<Item>)
    | Lines(key: string, lines: seq<string>)

  /** `getrepo(repo)`: a repository without '/' is put in the configured
      namespace, when there is one. */
  function GetRepo(repo: string, namespace: Option<string>): string {
    if '/' !in repo && namespace.Some? then namespace.value + "/" + repo else repo
  }

  /** The namespace is added exactly when the name has no '/' and a namespace
      is configured, and adding it twice changes nothing. */
  lemma GetRepoPrefixes(repo: string, namespace: Option<string>)
    ensures GetRepo(repo, namespace) == repo <==> '/' in repo || namespace.None?
    ensures '/' in repo || namespace.Some? ==> '/' in GetRepo(repo, namespace)
    ensures GetRepo(GetRepo(repo, namespace), namespace) == GetRepo(repo, namespace)
  {
    if '/' !in repo && namespace.Some? {
      var r := namespace.value + "/" + repo;
      assert r[|namespace.value|] == '/';
      assert |r| > |repo|;
    }
  }

  // ---------------------------------------------------------------- env

  /** `value or '""'`: a false value is shown as a pair of quotes. */
  function OrQuotes(v: Val): Val {
    if Truthy(v) then v else Str("\"\"")
  }

  /** The first loop of the older `compare_env`: `(k, '', v or '""')` for an
      extra variable, `(k, e, v or '""')` for one whose declared value is not
      equal (`!=`, with no `str()`) to the running text. */
  function ExtraOrChanged(expected: Dict<string, Val>, actual: Dict<string, string>): (r: seq<Item>)
    ensures forall x :: x in r ==> x.Change? && x.key in Keys(actual)
  {
    if |actual| == 0 then []
    else
      var (name, value) := actual[0];
      var head := match Get(expected, name)
        case None => [Change(name, Str(""), Str(Differ.OrQuotes(value)))]
        case Some(e) => if !Differ.PyEq(e, Str(value)) then [Change(name, e, Str(Differ.OrQuotes(value)))] else [];
      assert Keys(actual) == [name] + Keys(actual[1..]);
      head + ExtraOrChanged(expected, actual[1..])
  }

  /** The second loop: `(k, e or '""', '')` for a declared variable the
      running container lacks. */
  function Missing(expected: Dict<string, Val>, actual: Dict<string, string>): (r: seq<Item>)
    ensures forall x :: x in r ==> x.Change? && x.key in Keys(expected) && x.key !in Keys(actual)
  {
    if |expected| == 0 then []
    else
      var (name, value) := expected[0];
      assert Keys(expected) == [name] + Keys(expected[1..]);
      (if name in Keys(actual) then [] else [Change(name, OrQuotes(value), Str(""))]) + Missing(expected[1..], actual)
  }

  /** The older `compare_env(expected, actual)`. */
  function CompareEnv(expected: Dict<string, Val>, actual: Dict<string, string>): seq<Item> {
    ExtraOrChanged(expected, actual) + Missing(expected, actual)
  }

  /** Every running variable is declared with exactly its text as value, and
      every declared variable is running. */
  ghost predicate Agrees(expected: Dict<string, Val>, actual: Dict<string, string>) {
    && (forall i :: 0 <= i < |actual| ==> Get(expected, actual[i].0) == Some(Str(actual[i].1)))
    && (forall i :: 0 <= i < |expected| ==> expected[i].0 in Keys(actual))
  }

  lemma {:induction false} ExtraOrChangedEmpty(expected: Dict<string, Val>, actual: Dict<string, string>)
    ensures ExtraOrChanged(expected, actual) == []
        <==> forall i :: 0 <= i < |actual| ==> Get(expected, actual[i].0) == Some(Str(actual[i].1))
  {
    if |actual| > 0 {
      ExtraOrChangedEmpty(expected, actual[1..]);
      assert forall i :: 1 <= i < |actual| ==> actual[i] == actual[1..][i - 1];
    }
  }

  lemma {:induction false} MissingEmpty(expected: Dict<string, Val>, actual: Dict<string, string>)
    ensures Missing(expected, actual) == [] <==> forall i :: 0 <= i < |expected| ==> expected[i].0 in Keys(actual)
  {
    if |expected| > 0 {
      MissingEmpty(expected[1..], actual);
      assert forall i :: 1 <= i < |expected| ==> expected[i] == expected[1..][i - 1];
    }
  }

  /** Nothing is reported exactly when both environments hold the same
      variables and every declared value equals the running text. */
  lemma CompareEnvEmpty(expected: Dict<string, Val>, actual: Dict<string, string>)
    ensures CompareEnv(expected, actual) == [] <==> Agrees(expected, actual)
  {
    ExtraOrChangedEmpty(expected, actual);
    MissingEmpty(expected, actual);
  }

  /** A current record as an older triple, keyed by the bare variable name. */
  function Relabel(d: seq<Differ.Diff>): (r: seq<Item>)
    ensures |r| == |d|
  {
    if |d| == 0 then [] else [Change(if |d[0].path| > 1 then d[0].path[1] else "", d[0].expected, d[0].actual)] + Relabel(d[1..])
  }

  lemma {:induction false} RelabelConcat(a: seq<Differ.Diff>, b: seq<Differ.Diff>)
    ensures Relabel(a + b) == Relabel(a) + Relabel(b)
  {
    if |a| > 0 {
      assert (a + b)[1..] == a[1..] + b;
      RelabelConcat(a[1..], b);
    } else {
      assert a + b == b;
    }
  }

  /** When every declared value is a string, the older `compare_env` yields
      one triple for each record of the current one, in the same order:
      `!=` and the comparison through `str()` then agree. */
  lemma {:induction false} MatchesCurrentOnText(expected: Dict<string, Val>, actual: Dict<string, string>)
    requires forall i :: 0 <= i < |expected| ==> expected[i].1.Str?
    ensures CompareEnv(expected, actual) == Relabel(Differ.CompareEnv(expected, actual))
  {
    ExtraOrChangedOnText(expected, actual);
    MissingOnText(expected, actual);
    RelabelConcat(Differ.ExtraOrChanged(expected, actual), Differ.Missing(expected, actual));
  }

  lemma {:induction false} ExtraOrChangedOnText(expected: Dict<string, Val>, actual: Dict<string, string>)
    requires forall i :: 0 <= i < |expected| ==> expected[i].1.Str?
    ensures ExtraOrChanged(expected, actual) == Relabel(Differ.ExtraOrChanged(expected, actual))
  {
    if |actual| > 0 {
      var (name, value) := actual[0];
      ExtraOrChangedOnText(expected, actual[1..]);
      var current := Differ.ActualEntry(expected, name, value);
      RelabelConcat(current, Differ.ExtraOrChanged(expected, actual[1..]));
      var g := Get(expected, name);
      if g.Some? {
        var i :| 0 <= i < |expected| && expected[i] == (name, g.value);
        assert g.value.Str?;
      }
      assert Differ.EnvPath(name)[1] == name;
    }
  }

  lemma {:induction false} MissingOnText(expected: Dict<string, Val>, actual: Dict<string, string>)
    requires forall i :: 0 <= i < |expected| ==> expected[i].1.Str?
    ensures Missing(expected, actual) == Relabel(Differ.Missing(expected, actual))
  {
    if |expected| > 0 {
      var (name, value) := expected[0];
      MissingOnText(expected[1..], actual);
      var current: seq<Differ.Diff> := if name in Keys(actual) then [] else [Differ.Diff(Differ.EnvPath(name), Str(Differ.OrQuotes(PyStr(value))), Str(""))];
      RelabelConcat(current, Differ.Missing(expected[1..], actual));
      assert value.Str?;
      assert Differ.EnvPath(name)[1] == name;
    }
  }

  /** The two versions part on a declared number: the older one reports
      `8080` against `'8080'`, which the current one accepts. */
  lemma NumberDiffersFromItsText(k: string, i: int)
    ensures CompareEnv([(k, Int(i))], [(k, IntText(i))]) == [Change(k, Int(i), Str(Differ.OrQuotes(IntText(i))))]
    ensures Differ.CompareEnv([(k, Int(i))], [(k, IntText(i))]) == []
  {
    var expected, actual := [(k, Int(i))], [(k, IntText(i))];
    assert Get(expected, k) == Some(Int(i));
    assert ExtraOrChanged(expected, actual) == [Change(k, Int(i), Str(Differ.OrQuotes(IntText(i))))] + ExtraOrChanged(expected, []);
    assert k in Keys(actual) by { assert Keys(actual)[0] == k; }
    assert Missing(expected, actual) == [] + Missing([], actual);
    Differ.NumberMatchesItsText(k, i);
  }

  // ---------------------------------------------------------------- ports

  /** What the older `compare_ports` reads of a container: logical ports, the
      host ports they are published on, and their protocols. */
  datatype PortDecl = PortDecl(ports: Dict<string, nat>, extports: Dict<string, int>, portproto: Dict<string, string>)

  function ExtPort(c: PortDecl, name: string, port: nat): int {
    Get(c.extports, name).GetOr(port)
  }

  function Proto(c: PortDecl, name: string): string {
    Get(c.portproto, name).GetOr("tcp")
  }

  /** `'{port}/{proto}'`. */
  function Spec(c: PortDecl, name: string, port: nat): string {
    Decimal(port) + "/" + Proto(c, name)
  }

  function Specs(c: PortDecl, ports: Dict<string, nat>): (r: seq<string>)
    ensures |r| == |ports|
    ensures forall i :: 0 <= i < |ports| ==> r[i] == Spec(c, ports[i].0, ports[i].1)
  {
    seq(|ports|, i requires 0 <= i < |ports| => Spec(c, ports[i].0, ports[i].1))
  }

  /** What `NetworkSettings.Ports` holds for a port: its bindings, or null
      (None) when the port is exposed but not published. */
  type PortInfo = Option<seq<Differ.Binding>>

  /** `portinfo[0]` needs a list: on null it raises TypeError. */
  function Bindings(info: PortInfo): Result<seq<Differ.Binding>> {
    match info
    case None => Err(TypeError("'NoneType' object is not subscriptable"))
    case Some(b) => Ok(b)
  }

  /** The first loop: a declared port with no binding yields its three facts
      against empty values; one bound on another host port yields the `ext` change. */
  function DeclaredItems(c: PortDecl, ports: Dict<string, nat>, actual: Dict<string, PortInfo>): Result<seq<Item>> {
    if |ports| == 0 then Ok([])
    else
      var (name, port) := ports[0];
      var ext := ExtPort(c, name, port);
      var head :- match Get(actual, Spec(c, name, port))
        case None => Ok([Group(name, [Change("int", Int(port), Str("")), Change("ext", Int(ext), Str("")), Change("proto", Str(Proto(c, name)), Str(""))])])
        case Some(info) =>
          var bindings :- Bindings(info);
          var p :- Differ.HostPort(bindings);
          Ok(if p != ext then [Group(name, [Change("ext", Int(ext), Int(p))])] else []);
      var rest :- DeclaredItems(c, ports[1..], actual);
      Ok(head + rest)
  }

  /** The second loop: a binding nobody declared yields its three facts
      against empty expectations. Its name must split at '/' into exactly two
      pieces, and it must have a binding. */
  function UndeclaredItems(c: PortDecl, actual: Dict<string, PortInfo>): Result<seq<Item>> {
    if |actual| == 0 then Ok([])
    else
      var (portname, info) := actual[0];
      var head :- if portname in Specs(c, c.ports) then Ok([])
        else
          var parts := Split(portname, '/');
          if |parts| != 2 then Err(ValueError("wrong number of values to unpack"))
          else if info.None? then Err(TypeError("'NoneType' object is not subscriptable"))
          else if |info.value| == 0 then Err(IndexError)
          else Ok([Group(parts[0], [Change("int", Str(""), Str(parts[0])), Change("ext", Str(""), Str(info.value[0].hostPort)), Change("proto", Str(""), Str(parts[1]))])]);
      var rest :- UndeclaredItems(c, actual[1..]);
      Ok(head + rest)
  }

  /** The older `compare_ports(cont, bindings)`. */
  function ComparePorts(c: PortDecl, actual: Dict<string, PortInfo>): Result<seq<Item>> {
    var declared :- DeclaredItems(c, c.ports, actual);
    var undeclared :- UndeclaredItems(c, actual);
    Ok(declared + undeclared)
  }

  /** Every declared port is bound, on its host port. */
  predicate PortsBound(c: PortDecl, ports: Dict<string, nat>, actual: Dict<string, PortInfo>) {
    forall i :: 0 <= i < |ports| ==>
      match Get(actual, Spec(c, ports[i].0, ports[i].1))
      case None => false
      case Some(info) => info.Some? && Differ.HostPort(info.value) == Ok(ExtPort(c, ports[i].0, ports[i].1))
  }

  lemma {:induction false} DeclaredItemsEmpty(c: PortDecl, ports: Dict<string, nat>, actual: Dict<string, PortInfo>)
    ensures DeclaredItems(c, ports, actual) == Ok([]) <==> PortsBound(c, ports, actual)
  {
    if |ports| > 0 {
      DeclaredItemsEmpty(c, ports[1..], actual);
      assert forall i :: 1 <= i < |ports| ==> ports[i] == ports[1..][i - 1];
    }
  }

  lemma {:induction false} UndeclaredItemsEmpty(c: PortDecl, actual: Dict<string, PortInfo>)
    ensures UndeclaredItems(c, actual) == Ok([]) <==> forall j :: 0 <= j < |actual| ==> actual[j].0 in Specs(c, c.ports)
  {
    if |actual| > 0 {
      UndeclaredItemsEmpty(c, actual[1..]);
      assert forall j :: 1 <= j < |actual| ==> actual[j] == actual[1..][j - 1];
      var r := UndeclaredItems(c, actual);
      if actual[0].0 !in Specs(c, c.ports) && r.Ok? {
        assert r.value[0].Group?;
      }
    }
  }

  /** Nothing is reported exactly when every declared port is bound on its
      host port and every binding was declared. */
  lemma ComparePortsEmpty(c: PortDecl, actual: Dict<string, PortInfo>)
    ensures ComparePorts(c, actual) == Ok([]) <==>
      PortsBound(c, c.ports, actual) && forall j :: 0 <= j < |actual| ==> actual[j].0 in Specs(c, c.ports)
  {
    DeclaredItemsEmpty(c, c.ports, actual);
    UndeclaredItemsEmpty(c, actual);
    var declared, undeclared := DeclaredItems(c, c.ports, actual), UndeclaredItems(c, actual);
    if declared.Ok? && undeclared.Ok? {
      assert ComparePorts(c, actual) == Ok(declared.value + undeclared.value);
      assert |declared.value + undeclared.value| == |declared.value| + |undeclared.value|;
    }
  }

  /** A declared port without a binding reports its internal port, host port
      and protocol against empty values. */
  lemma {:induction false} UnboundPortReported(c: PortDecl, ports: Dict<string, nat>, actual: Dict<string, PortInfo>, i: nat)
    requires i < |ports| && Get(actual, Spec(c, ports[i].0, ports[i].1)).None?
    requires DeclaredItems(c, ports, actual).Ok?
    ensures var (name, port) := ports[i];
      Group(name, [Change("int", Int(port), Str("")), Change("ext", Int(ExtPort(c, name, port)), Str("")), Change("proto", Str(Proto(c, name)), Str(""))])
        in DeclaredItems(c, ports, actual).value
  {
    if i > 0 {
      UnboundPortReported(c, ports[1..], actual, i - 1);
    }
  }

  /** A declared port that Docker lists as exposed but not published (null)
      makes the older `compare_ports` fail with TypeError. */
  lemma UnpublishedPortFails(c: PortDecl, name: string, port: nat, actual: Dict<string, PortInfo>)
    requires Get(actual, Spec(c, name, port)) == Some(None)
    ensures DeclaredItems(c, [(name, port)], actual).Err?
    ensures DeclaredItems(c, [(name, port)], actual).error.TypeError?
  {
    assert [(name, port)][0] == (name, port);
  }

  // ---------------------------------------------------------------- files

  /** A configuration file of a volume: its name, what loading it from the
      host gives (None when it is not found), and what it should contain. */
  datatype File = File(name: string, loaded: Option<string>, data: string)

  /** What a file holds on the host; a missing file reads as empty. */
  function Content(f: File): string {
    f.loaded.GetOr("")
  }

  /** The lines of a line-by-line delta that are not unchanged context
      (`line[:2] != '  '`), in order. */
  function ChangedLines(delta: seq<string>): (r: seq<string>)
    ensures forall l :: l in r <==> l in delta && !StartsWith(l, "  ")
  {
    if |delta| == 0 then []
    else (if StartsWith(delta[0], "  ") then [] else [delta[0]]) + ChangedLines(delta[1..])
  }

  /** `compare_files(container, volume)`: each file whose host content is not
      its expected data, with the changed lines of `delta(actual lines,
      expected lines)`; `delta` stands for `difflib.Differ().compare`. */
  function CompareFiles(files: seq<File>, delta: (seq<string>, seq<string>) -> seq<string>): (r: seq<Item>)
    ensures forall x :: x in r ==> x.Lines? && forall l :: l in x.lines ==> !StartsWith(l, "  ")
  {
    if |files| == 0 then []
    else
      var f := files[0];
      (if Content(f) != f.data then [Lines(f.name, ChangedLines(delta(Split(Content(f), '\n'), Split(f.data, '\n'))))] else [])
      + CompareFiles(files[1..], delta)
  }

  /** Files are reported exactly when some file's host content (empty when
      it is missing) differs from its expected data. */
  lemma {:induction false} CompareFilesEmpty(files: seq<File>, delta: (seq<string>, seq<string>) -> seq<string>)
    ensures CompareFiles(files, delta) == [] <==> forall i :: 0 <= i < |files| ==> Content(files[i]) == files[i].data
  {
    if |files| > 0 {
      CompareFilesEmpty(files[1..], delta);
      assert forall i :: 1 <= i < |files| ==> files[i] == files[1..][i - 1];
    }
  }

  /** A file that is not found is reported exactly when its expected data is not empty. */
  lemma MissingFileIsEmpty(f: File, delta: (seq<string>, seq<string>) -> seq<string>)
    requires f.loaded.None?
    ensures CompareFiles([f], delta) == [] <==> f.data == ""
  {
    CompareFilesEmpty([f], delta);
  }

  // ---------------------------------------------------------------- volumes

  /** A declared volume: its mount point, its host path (`getpath(cont)`),
      whether it is read-only, and its configuration files, if it has any. */
  datatype Volume = Volume(dest: string, path: string, ro: bool, files: Option<seq<File>>)

  function VolumeAt(volumes: seq<Volume>, dest: string): (r: Option<Volume>)
    ensures r.None? <==> forall i :: 0 <= i < |volumes| ==> volumes[i].dest != dest
    ensures r.Some? ==> r.value.dest == dest && r.value in volumes
  {
    if |volumes| == 0 then None
    else if volumes[0].dest == dest then Some(volumes[0])
    else
      var r := VolumeAt(volumes[1..], dest);
      assert forall i :: 1 <= i < |volumes| ==> volumes[i] == volumes[1..][i - 1];
      r
  }

  /** The sub-items of a declared volume against the path and flag found at
      its mount point: a wrong path hides the file comparison; the flag is
      compared either way. */
  function VolumeItems(v: Volume, path: string, ro: bool, delta: (seq<string>, seq<string>) -> seq<string>): seq<Item> {
    var files := if v.files.Some? then CompareFiles(v.files.value, delta) else [];
    (if v.path != path then [Change("path", Str(v.path), Str(path))]
     else if |files| > 0 then [Group("files", files)]
     else [])
    + (if v.ro != ro then [Change("ro", Bool(v.ro), Bool(ro))] else [])
  }

  /** What one mount reports: for a declared volume its sub-items, only when
      there are any; for an undeclared mount outside Docker's own volume
      store, its path and flag against empty values. */
  function MountItem(volumes: seq<Volume>, dest: string, path: string, ro: bool, delta: (seq<string>, seq<string>) -> seq<string>): seq<Item> {
    match VolumeAt(volumes, dest)
    case None =>
      if StartsWith(path, Differ.VfsPrefix) then [] else [Group(dest, [Change("path", Str(""), Str(path)), Change("ro", Str(""), Bool(ro))])]
    case Some(v) =>
      var diffs := VolumeItems(v, path, ro, delta);
      if |diffs| > 0 then [Group(dest, diffs)] else []
  }

  /** The first loop of the older `compare_volumes`, over the first mounts;
      a mount without a read-only flag raises KeyError. */
  function MountItems(volumes: seq<Volume>, mounts: Dict<string, string>, rw: Dict<string, bool>, delta: (seq<string>, seq<string>) -> seq<string>): Result<seq<Item>> {
    if |mounts| == 0 then Ok([])
    else
      var n := |mounts| - 1;
      var before :- MountItems(volumes, mounts[..n], rw, delta);
      var (dest, path) := mounts[n];
      match Get(rw, dest)
      case None => Err(KeyError(dest))
      case Some(w) => Ok(before + MountItem(volumes, dest, path, !w, delta))
  }

  /** The second loop: a declared volume that is not mounted always reports
      its path and flag against empty values. */
  function UnmountedItems(volumes: seq<Volume>, mounts: Dict<string, string>): seq<Item> {
    if |volumes| == 0 then []
    else UnmountedItem(volumes[0], mounts) + UnmountedItems(volumes[1..], mounts)
  }

  /** What one declared volume reports in the second loop. */
  function UnmountedItem(v: Volume, mounts: Dict<string, string>): seq<Item> {
    if v.dest in Keys(mounts) then [] else [Group(v.dest, [Change("path", Str(v.path), Str("")), Change("ro", Bool(v.ro), Str(""))])]
  }

  function VolumesDiff(volumes: seq<Volume>, mounts: Dict<string, string>, rw: Dict<string, bool>, delta: (seq<string>, seq<string>) -> seq<string>): Result<seq<Item>> {
    var found :- MountItems(volumes, mounts, rw, delta);
    Ok(found + UnmountedItems(volumes, mounts))
  }

  lemma {:induction false} MountItemsErrStays(volumes: seq<Volume>, mounts: Dict<string, string>, rw: Dict<string, bool>, delta: (seq<string>, seq<string>) -> seq<string>, i: nat)
    requires i <= |mounts| && MountItems(volumes, mounts[..i], rw, delta).Err?
    ensures MountItems(volumes, mounts, rw, delta) == MountItems(volumes, mounts[..i], rw, delta)
    decreases |mounts| - i
  {
    if i < |mounts| {
      var n := |mounts| - 1;
      assert mounts[..n][..i] == mounts[..i];
      MountItemsErrStays(volumes, mounts[..n], rw, delta, i);
      var before := MountItems(volumes, mounts[..n], rw, delta);
      assert before.Err?;
      assert MountItems(volumes, mounts, rw, delta) == Err(before.error);
    } else {
      assert mounts[..i] == mounts;
    }
  }

  /** The body of the first loop for one mount: the sub-items of a declared
      volume are appended to a local list one by one. */
  method CollectMountItem(volumes: seq<Volume>, dest: string, path: string, ro: bool, delta: (seq<string>, seq<string>) -> seq<string>)
    returns (item: seq<Item>)
    ensures item == MountItem(volumes, dest, path, ro, delta)
  {
    var matched := VolumeAt(volumes, dest);
    item := [];
    if matched.None? {
      if !StartsWith(path, Differ.VfsPrefix) {
        item := [Group(dest, [Change("path", Str(""), Str(path)), Change("ro", Str(""), Bool(ro))])];
      }
    } else {
      var v := matched.value;
      var diffs: seq<Item> := [];
      if v.path != path {
        diffs := diffs + [Change("path", Str(v.path), Str(path))];
      } else if v.files.Some? {
        var configdiff := CompareFiles(v.files.value, delta);
        if |configdiff| > 0 {
          diffs := diffs + [Group("files", configdiff)];
        }
      }
      if v.ro != ro {
        diffs := diffs + [Change("ro", Bool(v.ro), Bool(ro))];
      }
      assert diffs == VolumeItems(v, path, ro, delta);
      if |diffs| > 0 {
        item := [Group(dest, diffs)];
      }
    }
  }

  /** The older `compare_volumes(cont, cinfo)`: the sub-items of each mount are
      collected in a local list, as the source does. */
  method CompareVolumes(volumes: seq<Volume>, mounts: Dict<string, string>, rw: Dict<string, bool>, delta: (seq<string>, seq<string>) -> seq<string>)
    returns (r: Result<seq<Item>>)
    ensures r == VolumesDiff(volumes, mounts, rw, delta)
  {
    var found: seq<Item> := [];
    var i := 0;
    while i < |mounts|
      invariant 0 <= i <= |mounts|
      invariant MountItems(volumes, mounts[..i], rw, delta) == Ok(found)
    {
      var (dest, path) := mounts[i];
      assert mounts[..i + 1][..i] == mounts[..i];
      var writable := Get(rw, dest);
      if writable.None? {
        r := Err(KeyError(dest));
        assert MountItems(volumes, mounts[..i + 1], rw, delta) == Err(KeyError(dest));
        MountItemsErrStays(volumes, mounts, rw, delta, i + 1);
        return;
      }
      var ro := !writable.value;
      var item := CollectMountItem(volumes, dest, path, ro, delta);
      found := found + item;
      i := i + 1;
    }
    assert mounts[..i] == mounts;
    var missing := CollectUnmounted(volumes, mounts);
    r := Ok(found + missing);
  }

  /** The second loop of the older `compare_volumes`. */
  method CollectUnmounted(volumes: seq<Volume>, mounts: Dict<string, string>) returns (missing: seq<Item>)
    ensures missing == UnmountedItems(volumes, mounts)
  {
    var j := 0;
    missing := [];
    while j < |volumes|
      invariant 0 <= j <= |volumes|
      invariant UnmountedItems(volumes, mounts) == missing + UnmountedItems(volumes[j..], mounts)
    {
      var item := UnmountedItem(volumes[j], mounts);
      ghost var later := UnmountedItems(volumes[j + 1..], mounts);
      assert UnmountedItems(volumes[j..], mounts) == item + later by {
        assert volumes[j..][0] == volumes[j] && volumes[j..][1..] == volumes[j + 1..];
      }
      assert missing + (item + later) == (missing + item) + later;
      missing := missing + item;
      j := j + 1;
    }
    assert volumes[j..] == [];
    assert missing + [] == missing;
  }

  /** Docker's anonymous volumes are never reported; any other undeclared
      mount is reported with its path and flag. */
  lemma UndeclaredMountReported(volumes: seq<Volume>, dest: string, path: string, ro: bool, delta: (seq<string>, seq<string>) -> seq<string>)
    requires forall i :: 0 <= i < |volumes| ==> volumes[i].dest != dest
    ensures StartsWith(path, Differ.VfsPrefix) ==> MountItem(volumes, dest, path, ro, delta) == []
    ensures !StartsWith(path, Differ.VfsPrefix) ==>
      MountItem(volumes, dest, path, ro, delta) == [Group(dest, [Change("path", Str(""), Str(path)), Change("ro", Str(""), Bool(ro))])]
  {
  }

  /** A declared volume mounted from the wrong host path reports the path and
      never its files; its read-only flag is compared either way. */
  lemma WrongPathHidesFiles(v: Volume, path: string, ro: bool, delta: (seq<string>, seq<string>) -> seq<string>)
    requires v.path != path
    ensures VolumeItems(v, path, ro, delta) == VolumeItems(v.(files := None), path, ro, delta)
    ensures VolumeItems(v, path, ro, delta)[0] == Change("path", Str(v.path), Str(path))
    ensures Change("ro", Bool(v.ro), Bool(ro)) in VolumeItems(v, path, ro, delta) <==> v.ro != ro
  {
  }

  // ---------------------------------------------------------------- container

  /** What the older `compare_container` reads from the declared container. */
  datatype Declared = Declared(
    name: string,
    repository: string,      // the image's repository
    imageId: string,         // the image's id
    command: string,
    imageCommand: string,
    memory: int,
    imageEnv: Dict<string, string>,
    env: Dict<string, Val>,  // declared values may be numbers or flags
    ports: PortDecl,
    volumes: seq<Volume>)

  /** The parts of Docker's inspect record it reads. */
  datatype Inspect = Inspect(
    name: string,                                     // Name, with a leading '/'
    image: string,                                    // Config.Image
    cmd: Option<seq<string>>,                         // Config.Cmd, or null
    memory: int,                                      // Config.Memory
    env: Option<seq<string>>,                         // Config.Env, or null
    ports: Dict<string, PortInfo>,         // NetworkSettings.Ports
    mounts: Dict<string, string>,                     // Volumes
    writable: Dict<string, bool>)                     // VolumesRW

  /** `dict(list(image.env.items()) + list(cont.env.items()))`. */
  function ExpectedEnv(c: Declared): Dict<string, Val> {
    Update([], Differ.AsVals(c.imageEnv) + c.env)
  }

  /** A variable the container sets overrides the image's. */
  lemma ExpectedEnvOverlay(c: Declared, k: string)
    requires Unique(c.imageEnv) && Unique(c.env)
    ensures Get(ExpectedEnv(c), k)
         == if Get(c.env, k).Some? then Get(c.env, k)
            else match Get(c.imageEnv, k) case None => None case Some(s) => Some(Str(s))
  {
    var image := Differ.AsVals(c.imageEnv);
    GetUpdate([], image + c.env, k);
    LastGetConcat(image, c.env, k);
    LastGetUnique(c.env, k);
    assert Unique(image) by {
      forall a, b | 0 <= a < b < |image| ensures image[a].0 != image[b].0 {
        assert image[a].0 == c.imageEnv[a].0 && image[b].0 == c.imageEnv[b].0;
      }
    }
    LastGetUnique(image, k);
    Differ.GetAsVals(c.imageEnv, k);
  }

  /** The five scalar fields, compared one by one; `cmd` is the running
      command words already joined. */
  function Fields(c: Declared, info: Inspect, repo: string, id: string, cmd: string): seq<Item> {
    (if c.name != Differ.DropFirst(info.name) then [Change("name", Str(c.name), Str(Differ.DropFirst(info.name)))] else [])
    + (if c.repository != repo then [Change("image.repo", Str(c.repository), Str(repo))] else [])
    + (if c.imageId != id then [Change("image.id", Str(c.imageId), Str(id))] else [])
    + (var command := if c.command != "" then c.command else c.imageCommand;
       if command != cmd then [Change("command", Str(command), Str(cmd))] else [])
    + (if c.memory != info.memory then [Change("memory", Int(c.memory), Int(info.memory))] else [])
  }

  /** A group only when it has members. */
  function GroupIfAny(key: string, items: seq<Item>): seq<Item> {
    if |items| > 0 then [Group(key, items)] else []
  }

  /** The older `compare_container(cont, cinfo)`. The image must be exactly
      `repository:id`; anything else fails to unpack. */
  function CompareContainer(c: Declared, info: Inspect, delta: (seq<string>, seq<string>) -> seq<string>): Result<seq<Item>> {
    var parts := Split(info.image, ':');
    if |parts| != 2 then Err(ValueError("wrong number of values to unpack"))
    else
      var cmd :- JoinList(info.cmd, " ");
      var fields := Fields(c, info, parts[0], parts[1], cmd);
      var actualEnv :- EnvFromList(info.env);
      var env := CompareEnv(ExpectedEnv(c), actualEnv);
      var ports :- ComparePorts(c.ports, info.ports);
      var volumes :- VolumesDiff(c.volumes, info.mounts, info.writable, delta);
      Ok(fields + GroupIfAny("env", env) + GroupIfAny("ports", ports) + GroupIfAny("volumes", volumes))
  }

  /** An image name with no ':' or with more than one cannot be unpacked. */
  lemma ImageMustHaveOneColon(c: Declared, info: Inspect, delta: (seq<string>, seq<string>) -> seq<string>)
    ensures ':' !in info.image ==> CompareContainer(c, info, delta) == Err(ValueError("wrong number of values to unpack"))
    ensures (exists a, b, x :: info.image == a + ":" + b + ":" + x) ==> CompareContainer(c, info, delta).Err?
  {
    if ':' !in info.image {
      SplitNoSeparator(info.image, ':');
    }
    if exists a, b, x :: info.image == a + ":" + b + ":" + x {
      var a, b, x :| info.image == a + ":" + b + ":" + x;
      TwoSeparators(info.image, ':', a, b, x);
    }
  }

  /** Every group, at any depth of the result, has members: an empty
      environment, port or volume comparison is not reported at all. */
  predicate NoEmptyGroup(items: seq<Item>)
    decreases items
  {
    forall i :: 0 <= i < |items| ==>
      match items[i]
      case Group(_, sub) => |sub| > 0 && NoEmptyGroup(sub)
      case _ => true
  }

  lemma NoEmptyGroupConcat(a: seq<Item>, b: seq<Item>)
    requires NoEmptyGroup(a) && NoEmptyGroup(b)
    ensures NoEmptyGroup(a + b)
  {
    forall i | 0 <= i < |a + b|
      ensures match (a + b)[i] case Group(_, sub) => |sub| > 0 && NoEmptyGroup(sub) case _ => true
    {
      if i < |a| { assert (a + b)[i] == a[i]; } else { assert (a + b)[i] == b[i - |a|]; }
    }
  }

  lemma FlatNoEmptyGroup(items: seq<Item>)
    requires forall x :: x in items ==> !x.Group?
    ensures NoEmptyGroup(items)
  {
    forall i | 0 <= i < |items| ensures !items[i].Group? {
      assert items[i] in items;
    }
  }

  lemma {:induction false} DeclaredItemsShape(c: PortDecl, ports: Dict<string, nat>, actual: Dict<string, PortInfo>)
    requires DeclaredItems(c, ports, actual).Ok?
    ensures NoEmptyGroup(DeclaredItems(c, ports, actual).value)
  {
    if |ports| > 0 {
      DeclaredItemsShape(c, ports[1..], actual);
      var (name, port) := ports[0];
      var ext := ExtPort(c, name, port);
      var facts := [Change("int", Int(port), Str("")), Change("ext", Int(ext), Str("")), Change("proto", Str(Proto(c, name)), Str(""))];
      FlatNoEmptyGroup(facts);
      FlatNoEmptyGroup([Change("ext", Int(ext), Int(0))]);
      var r := DeclaredItems(c, ports, actual).value;
      var rest := DeclaredItems(c, ports[1..], actual).value;
      var head := r[..|r| - |rest|];
      assert r == head + rest;
      match Get(actual, Spec(c, name, port)) {
        case None =>
          assert head == [Group(name, facts)];
        case Some(info) =>
          var p := Differ.HostPort(info.value).value;
          FlatNoEmptyGroup([Change("ext", Int(ext), Int(p))]);
          assert head == if p != ext then [Group(name, [Change("ext", Int(ext), Int(p))])] else [];
      }
      NoEmptyGroupConcat(head, rest);
    }
  }

  lemma {:induction false} UndeclaredItemsShape(c: PortDecl, actual: Dict<string, PortInfo>)
    requires UndeclaredItems(c, actual).Ok?
    ensures NoEmptyGroup(UndeclaredItems(c, actual).value)
  {
    if |actual| > 0 {
      UndeclaredItemsShape(c, actual[1..]);
      var r := UndeclaredItems(c, actual).value;
      var rest := UndeclaredItems(c, actual[1..]).value;
      var head := r[..|r| - |rest|];
      assert r == head + rest;
      if actual[0].0 !in Specs(c, c.ports) {
        var parts := Split(actual[0].0, '/');
        var facts := [Change("int", Str(""), Str(parts[0])), Change("ext", Str(""), Str(actual[0].1.value[0].hostPort)), Change("proto", Str(""), Str(parts[1]))];
        FlatNoEmptyGroup(facts);
        assert head == [Group(parts[0], facts)];
      }
      NoEmptyGroupConcat(head, rest);
    }
  }

  lemma VolumeItemsShape(v: Volume, path: string, ro: bool, delta: (seq<string>, seq<string>) -> seq<string>)
    ensures NoEmptyGroup(VolumeItems(v, path, ro, delta))
  {
    var files := if v.files.Some? then CompareFiles(v.files.value, delta) else [];
    FlatNoEmptyGroup(files);
    var items := VolumeItems(v, path, ro, delta);
    forall i | 0 <= i < |items|
      ensures match items[i] case Group(_, sub) => |sub| > 0 && NoEmptyGroup(sub) case _ => true
    {
      if items[i].Group? {
        assert items[i] == Group("files", files);
      }
    }
  }

  lemma {:induction false} MountItemsShape(volumes: seq<Volume>, mounts: Dict<string, string>, rw: Dict<string, bool>, delta: (seq<string>, seq<string>) -> seq<string>)
    requires MountItems(volumes, mounts, rw, delta).Ok?
    ensures NoEmptyGroup(MountItems(volumes, mounts, rw, delta).value)
  {
    if |mounts| > 0 {
      var n := |mounts| - 1;
      MountItemsShape(volumes, mounts[..n], rw, delta);
      var (dest, path) := mounts[n];
      var ro := !Get(rw, dest).value;
      var item := MountItem(volumes, dest, path, ro, delta);
      match VolumeAt(volumes, dest) {
        case None =>
          FlatNoEmptyGroup([Change("path", Str(""), Str(path)), Change("ro", Str(""), Bool(ro))]);
        case Some(v) =>
          VolumeItemsShape(v, path, ro, delta);
      }
      assert NoEmptyGroup(item);
      NoEmptyGroupConcat(MountItems(volumes, mounts[..n], rw, delta).value, item);
    }
  }

  lemma {:induction false} UnmountedItemsShape(volumes: seq<Volume>, mounts: Dict<string, string>)
    ensures NoEmptyGroup(UnmountedItems(volumes, mounts))
  {
    if |volumes| > 0 {
      UnmountedItemsShape(volumes[1..], mounts);
      var v := volumes[0];
      FlatNoEmptyGroup([Change("path", Str(v.path), Str("")), Change("ro", Bool(v.ro), Str(""))]);
      NoEmptyGroupConcat(UnmountedItem(v, mounts), UnmountedItems(volumes[1..], mounts));
    }
  }

  lemma GroupIfAnyShape(key: string, items: seq<Item>)
    requires NoEmptyGroup(items)
    ensures NoEmptyGroup(GroupIfAny(key, items))
  {
  }

  /** No empty group appears anywhere in what the older `compare_container` reports. */
  lemma ContainerHasNoEmptyGroup(c: Declared, info: Inspect, delta: (seq<string>, seq<string>) -> seq<string>)
    requires CompareContainer(c, info, delta).Ok?
    ensures NoEmptyGroup(CompareContainer(c, info, delta).value)
  {
    ContainerParts(c, info, delta);
    var parts := Split(info.image, ':');
    var fields := Fields(c, info, parts[0], parts[1], Join(info.cmd.value, " "));
    var env := CompareEnv(ExpectedEnv(c), EnvFromVars(info.env.value).value);
    var ports := ComparePorts(c.ports, info.ports).value;
    var volumes := VolumesDiff(c.volumes, info.mounts, info.writable, delta).value;
    PortsShape(c.ports, info.ports);
    VolumesShape(c.volumes, info.mounts, info.writable, delta);
    FieldsFlat(c, info, parts[0], parts[1], Join(info.cmd.value, " "));
    EnvFlat(ExpectedEnv(c), EnvFromVars(info.env.value).value);
    GroupsHaveMembers(fields, env, ports, volumes);
  }

  lemma FieldsFlat(c: Declared, info: Inspect, repo: string, id: string, cmd: string)
    ensures forall x :: x in Fields(c, info, repo, id, cmd) ==> !x.Group?
  {
  }

  lemma EnvFlat(expected: Dict<string, Val>, actual: Dict<string, string>)
    ensures forall x :: x in CompareEnv(expected, actual) ==> !x.Group?
  {
  }

  /** A successful older comparison is its five fields followed by the
      three groups, each present only when it has members. */
  lemma ContainerParts(c: Declared, info: Inspect, delta: (seq<string>, seq<string>) -> seq<string>)
    requires CompareContainer(c, info, delta).Ok?
    ensures |Split(info.image, ':')| == 2 && info.cmd.Some? && info.env.Some? && EnvFromVars(info.env.value).Ok?
    ensures ComparePorts(c.ports, info.ports).Ok? && VolumesDiff(c.volumes, info.mounts, info.writable, delta).Ok?
    ensures var parts := Split(info.image, ':');
      CompareContainer(c, info, delta).value
        == Fields(c, info, parts[0], parts[1], Join(info.cmd.value, " "))
           + GroupIfAny("env", CompareEnv(ExpectedEnv(c), EnvFromVars(info.env.value).value))
           + GroupIfAny("ports", ComparePorts(c.ports, info.ports).value)
           + GroupIfAny("volumes", VolumesDiff(c.volumes, info.mounts, info.writable, delta).value)
  {
  }

  lemma GroupsHaveMembers(fields: seq<Item>, env: seq<Item>, ports: seq<Item>, volumes: seq<Item>)
    requires forall x :: x in fields ==> !x.Group?
    requires forall x :: x in env ==> !x.Group?
    requires NoEmptyGroup(ports) && NoEmptyGroup(volumes)
    ensures NoEmptyGroup(fields + GroupIfAny("env", env) + GroupIfAny("ports", ports) + GroupIfAny("volumes", volumes))
  {
    FlatNoEmptyGroup(fields);
    FlatNoEmptyGroup(env);
    GroupIfAnyShape("env", env);
    GroupIfAnyShape("ports", ports);
    GroupIfAnyShape("volumes", volumes);
    NoEmptyGroupConcat(fields, GroupIfAny("env", env));
    NoEmptyGroupConcat(fields + GroupIfAny("env", env), GroupIfAny("ports", ports));
    NoEmptyGroupConcat(fields + GroupIfAny("env", env) + GroupIfAny("ports", ports), GroupIfAny("volumes", volumes));
  }

  lemma PortsShape(ports: PortDecl, actual: Dict<string, PortInfo>)
    requires ComparePorts(ports, actual).Ok?
    ensures NoEmptyGroup(ComparePorts(ports, actual).value)
  {
    DeclaredItemsShape(ports, ports.ports, actual);
    UndeclaredItemsShape(ports, actual);
    NoEmptyGroupConcat(DeclaredItems(ports, ports.ports, actual).value, UndeclaredItems(ports, actual).value);
  }

  lemma VolumesShape(volumes: seq<Volume>, mounts: Dict<string, string>, rw: Dict<string, bool>, delta: (seq<string>, seq<string>) -> seq<string>)
    requires VolumesDiff(volumes, mounts, rw, delta).Ok?
    ensures NoEmptyGroup(VolumesDiff(volumes, mounts, rw, delta).value)
  {
    MountItemsShape(volumes, mounts, rw, delta);
    UnmountedItemsShape(volumes, mounts);
    NoEmptyGroupConcat(MountItems(volumes, mounts, rw, delta).value, UnmountedItems(volumes, mounts));
  }

  /** Nothing is reported exactly when the image has the form `repository:id`,
      the five fields agree, the environments agree, and the port and volume
      comparisons report nothing. */
  lemma CompareContainerEmpty(c: Declared, info: Inspect, delta: (seq<string>, seq<string>) -> seq<string>)
    ensures CompareContainer(c, info, delta) == Ok([]) <==>
      var parts := Split(info.image, ':');
      && |parts| == 2
      && info.cmd.Some?
      && Fields(c, info, parts[0], parts[1], Join(info.cmd.value, " ")) == []
      && info.env.Some?
      && EnvFromVars(info.env.value).Ok?
      && Agrees(ExpectedEnv(c), EnvFromVars(info.env.value).value)
      && ComparePorts(c.ports, info.ports) == Ok([])
      && VolumesDiff(c.volumes, info.mounts, info.writable, delta) == Ok([])
  {
    var parts := Split(info.image, ':');
    var e := EnvFromList(info.env);
    var p := ComparePorts(c.ports, info.ports);
    var v := VolumesDiff(c.volumes, info.mounts, info.writable, delta);
    if |parts| == 2 && info.cmd.Some? && e.Ok? && p.Ok? && v.Ok? {
      CompareEnvEmpty(ExpectedEnv(c), e.value);
      var fields := Fields(c, info, parts[0], parts[1], Join(info.cmd.value, " "));
      var env := CompareEnv(ExpectedEnv(c), e.value);
      var r := fields + GroupIfAny("env", env) + GroupIfAny("ports", p.value) + GroupIfAny("volumes", v.value);
      assert CompareContainer(c, info, delta) == Ok(r);
      assert |r| == |fields| + |GroupIfAny("env", env)| + |GroupIfAny("ports", p.value)| + |GroupIfAny("volumes", v.value)|;
    }
  }

  /** A running container that Docker reports without a command or without an
      environment list fails the comparison with TypeError, once the image
      name unpacks. */
  lemma NullListFails(c: Declared, info: Inspect, delta: (seq<string>, seq<string>) -> seq<string>)
    requires |Split(info.image, ':')| == 2
    requires info.cmd.None? || info.env.None?
    ensures CompareContainer(c, info, delta).Err? && CompareContainer(c, info, delta).error.TypeError?
  {
  }

  lemma EnvPairsUnique(vars: seq<string>)
    requires EnvFromVars(vars).Ok?
    ensures Unique(EnvFromVars(vars).value)
  {
    UpdateUnique([], EnvPairs(vars).value);
  }
}
