/** The differencer of dominator/utils/__init__.py: compares a declared
    container with the record Docker's inspect call returns for the running
    one, and lists every difference as a path with an (expected, actual) pair.
    An empty list means the running container is what was declared. */
module Differ {
  import opened Wrappers
  import opened Values
  import opened Text
  import opened Dicts
  import Entities

  /** One reported difference: where, what was declared, what was found. */
  datatype Diff = Diff(path: seq<string>, expected: Val, actual: Val)

  /** Python's `==` on the scalars that get compared: a flag equals the
      number it stands for (`True == 1`), otherwise the values must agree. */
  predicate PyEq(a: Val, b: Val) {
    match (a, b)
    case (Int(x), Bool(y)) => x == (if y then 1 else 0)
    case (Bool(x), Int(y)) => (if x then 1 else 0) == y
    case _ => a == b
  }

  /** `compare_values`: one difference when the values are not equal, none otherwise. */
  function CompareValues(key: seq<string>, expected: Val, actual: Val): (r: seq<Diff>)
    ensures r == [] <==> PyEq(expected, actual)
    ensures r != [] ==> r == [Diff(key, expected, actual)]
  {
    if PyEq(expected, actual) then [] else [Diff(key, expected, actual)]
  }

  /** The differences reported at exactly `path`, in order. */
  function EntriesAt(r: seq<Diff>, path: seq<string>): (s: seq<Diff>)
    ensures forall d :: d in s <==> d in r && d.path == path
  {
    if |r| == 0 then [] else (if r[0].path == path then [r[0]] else []) + EntriesAt(r[1..], path)
  }

  lemma {:induction false} EntriesAtConcat(a: seq<Diff>, b: seq<Diff>, path: seq<string>)
    ensures EntriesAt(a + b, path) == EntriesAt(a, path) + EntriesAt(b, path)
  {
    if |a| > 0 {
      assert (a + b)[1..] == a[1..] + b;
      EntriesAtConcat(a[1..], b, path);
    } else {
      assert a + b == b;
    }
  }

  lemma {:induction false} EntriesAtAll(r: seq<Diff>, path: seq<string>)
    requires forall d :: d in r ==> d.path == path
    ensures EntriesAt(r, path) == r
  {
    if |r| > 0 {
      assert r[0] in r;
      EntriesAtAll(r[1..], path);
    }
  }

  lemma EntriesAtNone(r: seq<Diff>, path: seq<string>)
    requires forall d :: d in r ==> d.path != path
    ensures EntriesAt(r, path) == []
  {
  }

  // ---------------------------------------------------------------- env

  /** `value or '""'`: an empty value is shown as a pair of quotes. */
  function OrQuotes(v: string): string {
    if v == "" then "\"\"" else v
  }

  function EnvPath(name: string): seq<string> {
    ["env", name]
  }

  /** What `compare_env` reports for one variable of the running container. */
  function ActualEntry(expected: Dict<string, Val>, name: string, value: string): (r: seq<Diff>)
    ensures forall d :: d in r ==> d.path == EnvPath(name)
  {
    match Get(expected, name)
    case None => [Diff(EnvPath(name), Str(""), Str(OrQuotes(value)))]
    case Some(e) => if PyStr(e) != value then [Diff(EnvPath(name), e, Str(OrQuotes(value)))] else []
  }

  /** The first loop of `compare_env`: extra and changed variables, in the
      running container's order. */
  function ExtraOrChanged(expected: Dict<string, Val>, actual: Dict<string, string>): (r: seq<Diff>)
    ensures forall d :: d in r ==> exists i :: 0 <= i < |actual| && d.path == EnvPath(actual[i].0)
  {
    if |actual| == 0 then []
    else
      var rest := ExtraOrChanged(expected, actual[1..]);
      assert forall d :: d in rest ==> exists i :: 0 <= i < |actual| && d.path == EnvPath(actual[i].0) by {
        forall d | d in rest
          ensures exists i :: 0 <= i < |actual| && d.path == EnvPath(actual[i].0)
        {
          var i :| 0 <= i < |actual[1..]| && d.path == EnvPath(actual[1..][i].0);
          assert actual[1..][i] == actual[i + 1];
        }
      }
      ActualEntry(expected, actual[0].0, actual[0].1) + rest
  }

  /** The second loop of `compare_env`: declared variables the running
      container lacks, in the declared order. */
  function Missing(expected: Dict<string, Val>, actual: Dict<string, string>): (r: seq<Diff>)
    ensures forall d :: d in r ==> exists i :: 0 <= i < |expected| && d.path == EnvPath(expected[i].0) && expected[i].0 !in Keys(actual)
  {
    if |expected| == 0 then []
    else
      var (name, value) := expected[0];
      var rest := Missing(expected[1..], actual);
      assert forall d :: d in rest ==> exists i :: 0 <= i < |expected| && d.path == EnvPath(expected[i].0) && expected[i].0 !in Keys(actual) by {
        forall d | d in rest
          ensures exists i :: 0 <= i < |expected| && d.path == EnvPath(expected[i].0) && expected[i].0 !in Keys(actual)
        {
          var i :| 0 <= i < |expected[1..]| && d.path == EnvPath(expected[1..][i].0) && expected[1..][i].0 !in Keys(actual);
          assert expected[1..][i] == expected[i + 1];
        }
      }
      (if name in Keys(actual) then [] else [Diff(EnvPath(name), Str(OrQuotes(PyStr(value))), Str(""))]) + rest
  }

  /** `compare_env(expected, actual)`. */
  function CompareEnv(expected: Dict<string, Val>, actual: Dict<string, string>): seq<Diff> {
    ExtraOrChanged(expected, actual) + Missing(expected, actual)
  }

  lemma {:induction false} ExtraOrChangedAt(expected: Dict<string, Val>, actual: Dict<string, string>, k: string)
    requires Unique(actual)
    ensures EntriesAt(ExtraOrChanged(expected, actual), EnvPath(k))
         == match Get(actual, k) case None => [] case Some(y) => ActualEntry(expected, k, y)
  {
    if |actual| > 0 {
      var (name, value) := actual[0];
      var head := ActualEntry(expected, name, value);
      EntriesAtConcat(head, ExtraOrChanged(expected, actual[1..]), EnvPath(k));
      ExtraOrChangedAt(expected, actual[1..], k);
      if name == k {
        EntriesAtAll(head, EnvPath(k));
        assert k !in Keys(actual[1..]) by {
          forall i | 0 <= i < |actual[1..]|
            ensures Keys(actual[1..])[i] != k
          {
            assert actual[1..][i] == actual[i + 1];
          }
        }
      } else {
        assert EnvPath(name) != EnvPath(k) by { assert EnvPath(name)[1] != EnvPath(k)[1]; }
        EntriesAtNone(head, EnvPath(k));
      }
    }
  }

  lemma {:induction false} MissingAt(expected: Dict<string, Val>, actual: Dict<string, string>, k: string)
    requires Unique(expected)
    ensures EntriesAt(Missing(expected, actual), EnvPath(k))
         == match Get(expected, k)
            case None => []
            case Some(x) => if k in Keys(actual) then [] else [Diff(EnvPath(k), Str(OrQuotes(PyStr(x))), Str(""))]
  {
    if |expected| > 0 {
      var (name, value) := expected[0];
      var head: seq<Diff> := if name in Keys(actual) then [] else [Diff(EnvPath(name), Str(OrQuotes(PyStr(value))), Str(""))];
      EntriesAtConcat(head, Missing(expected[1..], actual), EnvPath(k));
      MissingAt(expected[1..], actual, k);
      if name == k {
        EntriesAtAll(head, EnvPath(k));
        assert k !in Keys(expected[1..]) by {
          forall i | 0 <= i < |expected[1..]|
            ensures Keys(expected[1..])[i] != k
          {
            assert expected[1..][i] == expected[i + 1];
          }
        }
      } else {
        assert EnvPath(name) != EnvPath(k) by { assert EnvPath(name)[1] != EnvPath(k)[1]; }
        EntriesAtNone(head, EnvPath(k));
      }
    }
  }

  /** What `compare_env` reports about one variable, whatever the order of
      either dictionary: nothing when both agree, the declared value against
      an empty one when the variable is missing, an empty value against the
      found one when it is extra, both values when they differ. */
  lemma CompareEnvAt(expected: Dict<string, Val>, actual: Dict<string, string>, k: string)
    requires Unique(expected) && Unique(actual)
    ensures EntriesAt(CompareEnv(expected, actual), EnvPath(k))
         == match (Get(expected, k), Get(actual, k))
            case (None, None) => []
            case (Some(x), None) => [Diff(EnvPath(k), Str(OrQuotes(PyStr(x))), Str(""))]
            case (None, Some(y)) => [Diff(EnvPath(k), Str(""), Str(OrQuotes(y)))]
            case (Some(x), Some(y)) => if PyStr(x) == y then [] else [Diff(EnvPath(k), x, Str(OrQuotes(y)))]
  {
    EntriesAtConcat(ExtraOrChanged(expected, actual), Missing(expected, actual), EnvPath(k));
    ExtraOrChangedAt(expected, actual, k);
    MissingAt(expected, actual, k);
  }

  /** `str()` of a declared value, when there is one. */
  function Shown(o: Option<Val>): Option<string> {
    match o
    case None => None
    case Some(v) => Some(PyStr(v))
  }

  /** The running container holds exactly the declared variables, each with
      the text `str()` gives of its declared value. */
  ghost predicate ShowsAs(expected: Dict<string, Val>, actual: Dict<string, string>) {
    forall k :: Get(actual, k) == Shown(Get(expected, k))
  }

  /** `compare_env` reports nothing exactly when both environments hold the
      same variables and each running value is the `str()` of the declared one. */
  lemma CompareEnvEmpty(expected: Dict<string, Val>, actual: Dict<string, string>)
    requires Unique(expected) && Unique(actual)
    ensures CompareEnv(expected, actual) == [] <==> ShowsAs(expected, actual)
  {
    var r := CompareEnv(expected, actual);
    if r == [] {
      forall k ensures Get(actual, k) == Shown(Get(expected, k)) {
        CompareEnvAt(expected, actual, k);
      }
    }
    if ShowsAs(expected, actual) && r != [] {
      var d := r[0];
      var k: string;
      if d in ExtraOrChanged(expected, actual) {
        var i :| 0 <= i < |actual| && d.path == EnvPath(actual[i].0);
        k := actual[i].0;
      } else {
        var i :| 0 <= i < |expected| && d.path == EnvPath(expected[i].0) && expected[i].0 !in Keys(actual);
        k := expected[i].0;
      }
      assert d in EntriesAt(r, EnvPath(k));
      CompareEnvAt(expected, actual, k);
      assert false;
    }
  }

  /** A declared number matches its decimal text: `8080` against `'8080'`
      is no difference, since the declared value goes through `str()`. */
  lemma NumberMatchesItsText(k: string, i: int)
    ensures CompareEnv([(k, Int(i))], [(k, IntText(i))]) == []
  {
    var expected, actual := [(k, Int(i))], [(k, IntText(i))];
    assert Get(expected, k) == Some(Int(i)) && PyStr(Int(i)) == IntText(i);
    assert ExtraOrChanged(expected, actual) == ActualEntry(expected, k, IntText(i)) + ExtraOrChanged(expected, []);
    assert k in Keys(actual) by { assert Keys(actual)[0] == k; }
    assert Missing(expected, actual) == [] + Missing([], actual);
  }

  // ---------------------------------------------------------------- ports

  /** A declared port: its `'{port}/{protocol}'` spec and the host port it is
      to be published on. */
  datatype Door = Door(portspec: string, externalport: int)

  /** One host binding of a published port, as inspect reports it. */
  datatype Binding = Binding(hostIp: string, hostPort: string)

  function Portspecs(doors: Dict<string, Door>): (r: seq<string>)
    ensures |r| == |doors|
    ensures forall i :: 0 <= i < |doors| ==> r[i] == doors[i].1.portspec
  {
    seq(|doors|, i requires 0 <= i < |doors| => doors[i].1.portspec)
  }

  /** The host port of the first binding: IndexError without one, ValueError
      when it is not a number. */
  function HostPort(info: seq<Binding>): Result<int> {
    if |info| == 0 then Err(IndexError)
    else match ParseInt(info[0].hostPort)
      case None => Err(ValueError("invalid literal for int()"))
      case Some(p) => Ok(p)
  }

  /** The first loop of `compare_ports`: each declared port is published,
      and on the declared host port. */
  function DoorDiffs(doors: Dict<string, Door>, actual: Dict<string, seq<Binding>>): Result<seq<Diff>> {
    if |doors| == 0 then Ok([])
    else
      var head :- DoorDiff(doors[0].0, doors[0].1, actual);
      var rest :- DoorDiffs(doors[1..], actual);
      Ok(head + rest)
  }

  /** One step of that loop: the port must be published, on its host port. */
  function DoorDiff(name: string, door: Door, actual: Dict<string, seq<Binding>>): Result<seq<Diff>> {
    match Get(actual, door.portspec)
    case None => Ok([Diff(["ports"], Str(name), Str(""))])
    case Some(info) =>
      var p :- HostPort(info);
      Ok(CompareValues(["ports", name, "ext"], Int(door.externalport), Int(p)))
  }

  /** The second loop of `compare_ports`: published ports nobody declared.
      A port name without '/' cannot be unpacked and raises ValueError. */
  function UndeclaredDiffs(doors: Dict<string, Door>, actual: Dict<string, seq<Binding>>): Result<seq<Diff>> {
    if |actual| == 0 then Ok([])
    else
      var portname := actual[0].0;
      var head :- if portname in Portspecs(doors) then Ok([])
        else
          var parts := SplitOnce(portname, '/');
          if |parts| != 2 then Err(ValueError("not enough values to unpack"))
          else Ok([Diff(["ports"], Str(""), Str(parts[0]))]);
      var rest :- UndeclaredDiffs(doors, actual[1..]);
      Ok(head + rest)
  }

  /** `compare_ports(cont, bindings)`. */
  function ComparePorts(doors: Dict<string, Door>, actual: Dict<string, seq<Binding>>): Result<seq<Diff>> {
    var declared :- DoorDiffs(doors, actual);
    var undeclared :- UndeclaredDiffs(doors, actual);
    Ok(declared + undeclared)
  }

  /** Every declared port is published on its declared host port. */
  predicate DoorsPublished(doors: Dict<string, Door>, actual: Dict<string, seq<Binding>>) {
    forall i :: 0 <= i < |doors| ==> DoorPublished(doors[i].1, actual)
  }

  predicate DoorPublished(door: Door, actual: Dict<string, seq<Binding>>) {
    match Get(actual, door.portspec)
    case None => false
    case Some(info) => HostPort(info) == Ok(door.externalport)
  }

  lemma DoorDiffEmpty(name: string, door: Door, actual: Dict<string, seq<Binding>>)
    ensures DoorDiff(name, door, actual) == Ok([]) <==> DoorPublished(door, actual)
  {
  }

  lemma {:induction false} DoorDiffsEmpty(doors: Dict<string, Door>, actual: Dict<string, seq<Binding>>)
    ensures DoorDiffs(doors, actual) == Ok([]) <==> DoorsPublished(doors, actual)
  {
    if |doors| > 0 {
      DoorDiffsEmpty(doors[1..], actual);
      DoorDiffEmpty(doors[0].0, doors[0].1, actual);
      var head, rest := DoorDiff(doors[0].0, doors[0].1, actual), DoorDiffs(doors[1..], actual);
      if head.Ok? && rest.Ok? {
        assert |head.value + rest.value| == |head.value| + |rest.value|;
      }
      assert DoorsPublished(doors, actual) <==> DoorPublished(doors[0].1, actual) && DoorsPublished(doors[1..], actual) by {
        assert forall i :: 1 <= i < |doors| ==> doors[i] == doors[1..][i - 1];
      }
    }
  }

  lemma {:induction false} UndeclaredDiffsEmpty(doors: Dict<string, Door>, actual: Dict<string, seq<Binding>>)
    ensures UndeclaredDiffs(doors, actual) == Ok([]) <==> forall j :: 0 <= j < |actual| ==> actual[j].0 in Portspecs(doors)
  {
    if |actual| > 0 {
      var specs := Portspecs(doors);
      UndeclaredDiffsEmpty(doors, actual[1..]);
      assert (forall j :: 0 <= j < |actual| ==> actual[j].0 in specs)
        <==> actual[0].0 in specs && forall j :: 0 <= j < |actual[1..]| ==> actual[1..][j].0 in specs by {
        assert forall j :: 1 <= j < |actual| ==> actual[j] == actual[1..][j - 1];
      }
      var r, rest := UndeclaredDiffs(doors, actual), UndeclaredDiffs(doors, actual[1..]);
      if actual[0].0 in specs {
        if rest.Ok? {
          assert r == Ok(rest.value) by { assert [] + rest.value == rest.value; }
        }
      } else {
        var parts := SplitOnce(actual[0].0, '/');
        if |parts| == 2 && rest.Ok? {
          assert r == Ok([Diff(["ports"], Str(""), Str(parts[0]))] + rest.value);
        }
      }
    }
  }

  /** `compare_ports` reports nothing exactly when every declared port is
      published on its host port and every published port was declared. */
  lemma ComparePortsEmpty(doors: Dict<string, Door>, actual: Dict<string, seq<Binding>>)
    ensures ComparePorts(doors, actual) == Ok([]) <==>
      DoorsPublished(doors, actual) && forall j :: 0 <= j < |actual| ==> actual[j].0 in Portspecs(doors)
  {
    DoorDiffsEmpty(doors, actual);
    UndeclaredDiffsEmpty(doors, actual);
    var declared, undeclared := DoorDiffs(doors, actual), UndeclaredDiffs(doors, actual);
    if declared.Ok? && undeclared.Ok? {
      assert ComparePorts(doors, actual) == Ok(declared.value + undeclared.value);
      assert |declared.value + undeclared.value| == |declared.value| + |undeclared.value|;
    }
  }

  /** A published port nobody declared is reported as extra, with the number
      in front of its '/'. */
  lemma {:induction false} UndeclaredPortReported(doors: Dict<string, Door>, actual: Dict<string, seq<Binding>>, j: nat, port: string, proto: string)
    requires j < |actual| && actual[j].0 == port + "/" + proto && '/' !in port
    requires actual[j].0 !in Portspecs(doors)
    requires UndeclaredDiffs(doors, actual).Ok?
    ensures Diff(["ports"], Str(""), Str(port)) in UndeclaredDiffs(doors, actual).value
  {
    if j > 0 {
      UndeclaredPortReported(doors, actual[1..], j - 1, port, proto);
    } else {
      var parts := SplitOnce(actual[0].0, '/');
      assert '/' in actual[0].0 by { assert actual[0].0[|port|] == '/'; }
      PieceUnique(parts[0], parts[1], port, proto, '/');
    }
  }

  // ---------------------------------------------------------------- volumes

  /** A declared volume: where it is mounted in the container, the host path
      it should come from, whether it is read-only, and, for a volume whose
      files dominator writes itself, what comparing those files reports. */
  datatype Volume = Volume(dest: string, fullpath: string, ro: bool, files: Option<seq<Diff>>)

  /** Docker's own anonymous volumes live here and are never reported as extra. */
  const VfsPrefix: string := "/var/lib/docker/vfs/dir"

  /** The first declared volume mounted at `dest`. */
  function VolumeAt(volumes: Dict<string, Volume>, dest: string): (r: Option<Volume>)
    ensures r.None? <==> forall i :: 0 <= i < |volumes| ==> volumes[i].1.dest != dest
    ensures r.Some? ==> r.value.dest == dest && exists i :: 0 <= i < |volumes| && volumes[i].1 == r.value
  {
    if |volumes| == 0 then None
    else if volumes[0].1.dest == dest then Some(volumes[0].1)
    else
      var r := VolumeAt(volumes[1..], dest);
      assert forall i :: 1 <= i < |volumes| ==> volumes[i] == volumes[1..][i - 1];
      assert r.Some? ==> exists i :: 0 <= i < |volumes[1..]| && volumes[1..][i].1 == r.value;
      r
  }

  /** What one declared volume reports against the host path and read-only
      flag found at its mount point: a wrong path hides the file comparison. */
  function VolumeDiffs(v: Volume, path: string, ro: bool): seq<Diff> {
    (if v.fullpath != path then [Diff(["volumes", v.dest, "path"], Str(v.fullpath), Str(path))]
     else v.files.GetOr([]))
    + CompareValues(["volumes", v.dest, "ro"], Bool(v.ro), Bool(ro))
  }

  lemma VolumeDiffsEmpty(v: Volume, path: string, ro: bool)
    ensures VolumeDiffs(v, path, ro) == [] <==> v.fullpath == path && v.files.GetOr([]) == [] && v.ro == ro
  {
    var first := if v.fullpath != path then [Diff(["volumes", v.dest, "path"], Str(v.fullpath), Str(path))] else v.files.GetOr([]);
    assert VolumeDiffs(v, path, ro) == first + CompareValues(["volumes", v.dest, "ro"], Bool(v.ro), Bool(ro));
  }

  /** The first loop of `compare_volumes`, over the mounts inspect reports.
      The read-only flag is looked up first: a mount without one raises KeyError. */
  function MountDiffs(volumes: Dict<string, Volume>, mounts: Dict<string, string>, rw: Dict<string, bool>): Result<seq<Diff>> {
    if |mounts| == 0 then Ok([])
    else
      var (dest, path) := mounts[0];
      var writable :- match Get(rw, dest) case None => Err(KeyError(dest)) case Some(w) => Ok(w);
      var rest :- MountDiffs(volumes, mounts[1..], rw);
      Ok(MountHead(volumes, dest, path, !writable) + rest)
  }

  /** What one mount reports: an undeclared mount point outside Docker's own
      volume directory, or the differences from the declared volume there. */
  function MountHead(volumes: Dict<string, Volume>, dest: string, path: string, ro: bool): seq<Diff> {
    match VolumeAt(volumes, dest)
    case None => if StartsWith(path, VfsPrefix) then [] else [Diff(["volumes"], Str(""), Str(dest))]
    case Some(v) => VolumeDiffs(v, path, ro)
  }

  /** The second loop of `compare_volumes`: declared volumes not mounted. */
  function UnmountedDiffs(volumes: Dict<string, Volume>, mounts: Dict<string, string>): seq<Diff> {
    if |volumes| == 0 then []
    else
      var v := volumes[0].1;
      (if v.dest in Keys(mounts) then [] else [Diff(["volumes"], Str(v.dest), Str(""))])
      + UnmountedDiffs(volumes[1..], mounts)
  }

  /** `compare_volumes(cont, cinfo)`. */
  function CompareVolumes(volumes: Dict<string, Volume>, mounts: Dict<string, string>, rw: Dict<string, bool>): Result<seq<Diff>> {
    var found :- MountDiffs(volumes, mounts, rw);
    Ok(found + UnmountedDiffs(volumes, mounts))
  }

  /** A mount agrees with the declaration: it has a read-only flag, and it is
      either Docker's own anonymous volume or a declared volume with the
      declared host path, no file differences and the declared flag. */
  predicate MountMatches(volumes: Dict<string, Volume>, dest: string, path: string, rw: Dict<string, bool>) {
    Get(rw, dest).Some? &&
    match VolumeAt(volumes, dest)
    case None => StartsWith(path, VfsPrefix)
    case Some(v) => v.fullpath == path && v.files.GetOr([]) == [] && v.ro == !Get(rw, dest).value
  }

  lemma {:induction false} MountDiffsEmpty(volumes: Dict<string, Volume>, mounts: Dict<string, string>, rw: Dict<string, bool>)
    ensures MountDiffs(volumes, mounts, rw) == Ok([]) <==>
      forall j :: 0 <= j < |mounts| ==> MountMatches(volumes, mounts[j].0, mounts[j].1, rw)
  {
    if |mounts| > 0 {
      MountDiffsEmpty(volumes, mounts[1..], rw);
      MountStepEmpty(volumes, mounts, rw);
      assert (forall j :: 0 <= j < |mounts| ==> MountMatches(volumes, mounts[j].0, mounts[j].1, rw)) <==>
        MountMatches(volumes, mounts[0].0, mounts[0].1, rw) &&
        forall j :: 0 <= j < |mounts[1..]| ==> MountMatches(volumes, mounts[1..][j].0, mounts[1..][j].1, rw)
      by {
        assert forall j :: 1 <= j < |mounts| ==> mounts[j] == mounts[1..][j - 1];
      }
    }
  }

  lemma MountStepEmpty(volumes: Dict<string, Volume>, mounts: Dict<string, string>, rw: Dict<string, bool>)
    requires |mounts| > 0
    ensures MountDiffs(volumes, mounts, rw) == Ok([]) <==>
      MountMatches(volumes, mounts[0].0, mounts[0].1, rw) && MountDiffs(volumes, mounts[1..], rw) == Ok([])
  {
    var (dest, path) := mounts[0];
    if Get(rw, dest).Some? {
      var ro := !Get(rw, dest).value;
      var head := MountHead(volumes, dest, path, ro);
      MountHeadEmpty(volumes, dest, path, ro);
      assert MountMatches(volumes, dest, path, rw) <==> head == [];
      var rest := MountDiffs(volumes, mounts[1..], rw);
      if rest.Ok? {
        assert MountDiffs(volumes, mounts, rw) == Ok(head + rest.value);
        assert |head + rest.value| == |head| + |rest.value|;
      } else {
        assert MountDiffs(volumes, mounts, rw).Err?;
      }
    }
  }

  lemma MountHeadEmpty(volumes: Dict<string, Volume>, dest: string, path: string, ro: bool)
    ensures MountHead(volumes, dest, path, ro) == [] <==>
      match VolumeAt(volumes, dest)
      case None => StartsWith(path, VfsPrefix)
      case Some(v) => v.fullpath == path && v.files.GetOr([]) == [] && v.ro == ro
  {
    if VolumeAt(volumes, dest).Some? {
      VolumeDiffsEmpty(VolumeAt(volumes, dest).value, path, ro);
    }
  }

  lemma {:induction false} UnmountedDiffsEmpty(volumes: Dict<string, Volume>, mounts: Dict<string, string>)
    ensures UnmountedDiffs(volumes, mounts) == [] <==> forall i :: 0 <= i < |volumes| ==> volumes[i].1.dest in Keys(mounts)
  {
    if |volumes| > 0 {
      UnmountedDiffsEmpty(volumes[1..], mounts);
      assert forall i :: 1 <= i < |volumes| ==> volumes[i] == volumes[1..][i - 1];
    }
  }

  /** `compare_volumes` reports nothing exactly when every mount agrees with
      the declaration and every declared volume is mounted. */
  lemma CompareVolumesEmpty(volumes: Dict<string, Volume>, mounts: Dict<string, string>, rw: Dict<string, bool>)
    ensures CompareVolumes(volumes, mounts, rw) == Ok([]) <==>
      (forall j :: 0 <= j < |mounts| ==> MountMatches(volumes, mounts[j].0, mounts[j].1, rw))
      && (forall i :: 0 <= i < |volumes| ==> volumes[i].1.dest in Keys(mounts))
  {
    MountDiffsEmpty(volumes, mounts, rw);
    UnmountedDiffsEmpty(volumes, mounts);
  }

  /** The file comparison of a volume mounted from the wrong host path is not
      reported: only the path (and a wrong flag) is. */
  lemma WrongPathHidesFiles(v: Volume, path: string, ro: bool)
    requires v.fullpath != path
    ensures VolumeDiffs(v, path, ro) == VolumeDiffs(v.(files := None), path, ro)
    ensures Diff(["volumes", v.dest, "path"], Str(v.fullpath), Str(path)) in VolumeDiffs(v, path, ro)
  {
  }

  // ---------------------------------------------------------------- container

  /** What `compare_container` reads from the declared container and its image. */
  datatype Declared = Declared(
    dockername: string,
    repository: string,      // the image's full repository
    imageId: string,         // the image's id
    imageUser: string,       // the image's user, '' when it has none
    image: Entities.ImageInspect,  // what `cont.image.inspect()` answers
    memory: int,
    networkMode: string,
    user: string,
    privileged: bool,
    command: string,
    env: Dict<string, Val>,  // declared values may be numbers or flags
    doors: Dict<string, Door>,
    volumes: Dict<string, Volume>)

  /** The parts of Docker's inspect record that `compare_container` reads. */
  datatype Inspect = Inspect(
    name: string,                                  // Name, with a leading '/'
    image: string,                                 // Config.Image, 'repository:id'
    memory: int,                                   // Config.Memory
    user: string,                                  // Config.User
    cmd: Option<seq<string>>,                      // Config.Cmd, null when there is none
    env: Option<seq<string>>,                      // Config.Env, 'NAME=value' entries, or null
    networkMode: string,                           // HostConfig.NetworkMode
    privileged: bool,                              // HostConfig.Privileged
    portBindings: Option<Dict<string, seq<Binding>>>, // HostConfig.PortBindings
    mounts: Dict<string, string>,                  // Volumes
    writable: Dict<string, bool>)                  // VolumesRW

  /** `image.split(':')`: the last piece is the id, the rest rejoined is the repository. */
  function SplitImage(image: string): (string, string) {
    var parts := Split(image, ':');
    (Join(parts[..|parts| - 1], ":"), parts[|parts| - 1])
  }

  /** The image is cut at its last ':'; without one the repository is empty. */
  lemma SplitImageAtLastColon(image: string)
    ensures ':' !in SplitImage(image).1
    ensures ':' in image ==> SplitImage(image).0 + ":" + SplitImage(image).1 == image
    ensures ':' !in image ==> SplitImage(image) == ("", image)
  {
    var parts := Split(image, ':');
    JoinSplit(image, ':');
    if ':' in image {
      JoinSnoc(parts, ":");
    } else {
      SplitNoSeparator(image, ':');
    }
  }

  /** `name[1:]`. */
  function DropFirst(s: string): string {
    if |s| == 0 then "" else s[1..]
  }

  /** The seven identity fields `compare_container` always compares, in order. */
  function IdentityFields(c: Declared, info: Inspect): seq<(string, Val, Val)> {
    var (repo, id) := SplitImage(info.image);
    [("name", Str(c.dockername), Str(DropFirst(info.name))),
     ("image.repo", Str(c.repository), Str(repo)),
     ("image.id", Str(c.imageId), Str(id)),
     ("memory", Int(c.memory), Int(info.memory)),
     ("network_mode", Str(c.networkMode), Str(info.networkMode)),
     ("user", Str(if c.user != "" then c.user else c.imageUser), Str(info.user)),
     ("privileged", Bool(c.privileged), Bool(info.privileged))]
  }

  function CompareFields(fields: seq<(string, Val, Val)>): seq<Diff> {
    if |fields| == 0 then []
    else CompareValues([fields[0].0], fields[0].1, fields[0].2) + CompareFields(fields[1..])
  }

  /** Each field is reported at its own key, once, when its values differ. */
  lemma {:induction false} CompareFieldsAt(fields: seq<(string, Val, Val)>, i: nat)
    requires i < |fields|
    requires forall a, b :: 0 <= a < b < |fields| ==> fields[a].0 != fields[b].0
    ensures EntriesAt(CompareFields(fields), [fields[i].0]) == CompareValues([fields[i].0], fields[i].1, fields[i].2)
  {
    var head := CompareValues([fields[0].0], fields[0].1, fields[0].2);
    EntriesAtConcat(head, CompareFields(fields[1..]), [fields[i].0]);
    if i == 0 {
      EntriesAtAll(head, [fields[0].0]);
      FieldsElsewhere(fields[1..], fields[0].0);
    } else {
      CompareFieldsAt(fields[1..], i - 1);
      assert [fields[0].0] != [fields[i].0] by { assert [fields[0].0][0] != [fields[i].0][0]; }
      EntriesAtNone(head, [fields[i].0]);
    }
  }

  lemma {:induction false} FieldsElsewhere(fields: seq<(string, Val, Val)>, key: string)
    requires forall a :: 0 <= a < |fields| ==> fields[a].0 != key
    ensures EntriesAt(CompareFields(fields), [key]) == []
  {
    if |fields| > 0 {
      var head := CompareValues([fields[0].0], fields[0].1, fields[0].2);
      EntriesAtConcat(head, CompareFields(fields[1..]), [key]);
      FieldsElsewhere(fields[1..], key);
      assert [fields[0].0] != [key] by { assert [fields[0].0][0] != [key][0]; }
    }
  }

  lemma {:induction false} CompareFieldsEmpty(fields: seq<(string, Val, Val)>)
    ensures CompareFields(fields) == [] <==> forall i :: 0 <= i < |fields| ==> PyEq(fields[i].1, fields[i].2)
  {
    if |fields| > 0 {
      CompareFieldsEmpty(fields[1..]);
      assert forall i :: 1 <= i < |fields| ==> fields[i] == fields[1..][i - 1];
    }
  }

  /** An environment read from Docker, as Python values. */
  function AsVals(d: Dict<string, string>): (r: Dict<string, Val>)
    ensures |r| == |d|
    ensures forall i :: 0 <= i < |d| ==> r[i] == (d[i].0, Str(d[i].1))
  {
    seq(|d|, i requires 0 <= i < |d| => (d[i].0, Str(d[i].1)))
  }

  lemma {:induction false} GetAsVals(d: Dict<string, string>, k: string)
    ensures Get(AsVals(d), k) == match Get(d, k) case None => None case Some(s) => Some(Str(s))
  {
    if |d| > 0 {
      assert AsVals(d)[1..] == AsVals(d[1..]);
      GetAsVals(d[1..], k);
    }
  }

  /** The expected environment: the image's `getenv()`, updated by the container's. */
  function ExpectedEnv(image: Dict<string, string>, env: Dict<string, Val>): Dict<string, Val> {
    Update(AsVals(image), env)
  }

  /** A variable the container sets wins over the image's; the others come
      from the image, as text. */
  lemma ExpectedEnvOverlay(image: Dict<string, string>, env: Dict<string, Val>, k: string)
    requires Unique(env)
    ensures Get(ExpectedEnv(image, env), k)
         == if Get(env, k).Some? then Get(env, k)
            else match Get(image, k) case None => None case Some(s) => Some(Str(s))
  {
    GetUpdate(AsVals(image), env, k);
    LastGetUnique(env, k);
    GetAsVals(image, k);
  }

  /** The command record: the container's own command, else the image's
      `getcommand()` (asked only then), against the running command words. */
  function CommandDiff(c: Declared, info: Inspect): Result<seq<Diff>> {
    var expected :- if c.command != "" then Ok(c.command) else Entities.GetCommand(c.image);
    var actual :- JoinList(info.cmd, " ");
    Ok(CompareValues(["command"], Str(expected), Str(actual)))
  }

  /** The environment records: the image's `getenv()` updated by the
      container's, against the running `NAME=value` list. */
  function EnvDiff(c: Declared, info: Inspect): Result<seq<Diff>> {
    var image :- Entities.GetEnv(c.image);
    var actualEnv :- EnvFromList(info.env);
    Ok(CompareEnv(ExpectedEnv(image, c.env), actualEnv))
  }

  /** The command (the container's own, else the image's) and the environment. */
  function CommandAndEnv(c: Declared, info: Inspect): Result<seq<Diff>> {
    var command :- CommandDiff(c, info);
    var env :- EnvDiff(c, info);
    Ok(command + env)
  }

  /** Command and environment are compared only when the running container
      uses the declared image (another image's defaults prove nothing). */
  function Gated(c: Declared, info: Inspect): Result<seq<Diff>> {
    if c.imageId == SplitImage(info.image).1 then CommandAndEnv(c, info) else Ok([])
  }

  /** `compare_container(cont, cinfo)`: identity fields, then command and
      environment when the image ids agree, then ports, then volumes. */
  function CompareContainer(c: Declared, info: Inspect): Result<seq<Diff>> {
    var identity := CompareFields(IdentityFields(c, info));
    var gated :- Gated(c, info);
    var ports :- ComparePorts(c.doors, info.portBindings.GetOr([]));
    var volumes :- CompareVolumes(c.volumes, info.mounts, info.writable);
    Ok(identity + gated + ports + volumes)
  }

  /** A running container without a command, or one whose declared image has
      none to fall back on, fails the comparison when the image ids agree,
      with TypeError once the image's record was read; with another image id
      neither is asked for. */
  lemma NullCommandFails(c: Declared, info: Inspect)
    requires info.cmd.None? || (c.command == "" && Entities.GetCommand(c.image).Err?)
    ensures c.imageId == SplitImage(info.image).1 ==> CompareContainer(c, info).Err?
    ensures c.imageId == SplitImage(info.image).1 && (c.command != "" || Entities.InspectConfig(c.image).Ok?) ==>
      CompareContainer(c, info).error.TypeError?
    ensures c.imageId != SplitImage(info.image).1 ==> Gated(c, info) == Ok([])
  {
    var d := CommandDiff(c, info);
    assert d.Err?;
    if c.command != "" || Entities.InspectConfig(c.image).Ok? {
      Entities.ImageCommand(c.image);
      assert d.error.TypeError?;
    }
    if c.imageId == SplitImage(info.image).1 {
      assert Gated(c, info) == CommandAndEnv(c, info);
      assert CommandAndEnv(c, info) == Err(d.error);
      assert CompareContainer(c, info) == Err(d.error);
    }
  }

  /** The same for a null environment list, on the running container (once
      the image's environment was read) or on the declared image. */
  lemma NullEnvFails(c: Declared, info: Inspect)
    requires CommandDiff(c, info).Ok?
    requires (info.env.None? && Entities.GetEnv(c.image).Ok?)
          || (Entities.InspectConfig(c.image).Ok? && Entities.InspectConfig(c.image).value.env.None?)
    ensures c.imageId == SplitImage(info.image).1 ==> CompareContainer(c, info).Err? && CompareContainer(c, info).error.TypeError?
  {
    var e := EnvDiff(c, info);
    assert e.Err? && e.error.TypeError?;
    if c.imageId == SplitImage(info.image).1 {
      assert Gated(c, info) == CommandAndEnv(c, info);
      assert CommandAndEnv(c, info) == Err(e.error);
      assert CompareContainer(c, info) == Err(e.error);
    }
  }

  /** The section a difference belongs to, in the order they are reported. */
  function Rank(d: Diff): nat {
    var head := if |d.path| > 0 then d.path[0] else "";
    if head in ["name", "image.repo", "image.id", "memory", "network_mode", "user", "privileged"] then 0
    else if head == "command" then 1
    else if head == "env" then 2
    else if head == "ports" then 3
    else 4
  }

  /** The file comparisons of the declared volumes report under `volumes`. */
  predicate FilesUnderVolumes(volumes: Dict<string, Volume>) {
    forall i :: 0 <= i < |volumes| && volumes[i].1.files.Some? ==>
      forall d :: d in volumes[i].1.files.value ==> Rank(d) == 4
  }

  predicate AllRank(r: seq<Diff>, k: nat) {
    forall d :: d in r ==> Rank(d) == k
  }

  lemma {:induction false} FieldsRank(fields: seq<(string, Val, Val)>)
    requires forall i :: 0 <= i < |fields| ==> fields[i].0 in ["name", "image.repo", "image.id", "memory", "network_mode", "user", "privileged"]
    ensures AllRank(CompareFields(fields), 0)
  {
    if |fields| > 0 {
      FieldsRank(fields[1..]);
    }
  }

  lemma {:induction false} DoorDiffsRank(doors: Dict<string, Door>, actual: Dict<string, seq<Binding>>)
    requires DoorDiffs(doors, actual).Ok?
    ensures AllRank(DoorDiffs(doors, actual).value, 3)
  {
    if |doors| > 0 {
      DoorDiffsRank(doors[1..], actual);
    }
  }

  lemma {:induction false} UndeclaredDiffsRank(doors: Dict<string, Door>, actual: Dict<string, seq<Binding>>)
    requires UndeclaredDiffs(doors, actual).Ok?
    ensures AllRank(UndeclaredDiffs(doors, actual).value, 3)
  {
    if |actual| > 0 {
      UndeclaredDiffsRank(doors, actual[1..]);
    }
  }

  lemma {:induction false} MountDiffsRank(volumes: Dict<string, Volume>, mounts: Dict<string, string>, rw: Dict<string, bool>)
    requires FilesUnderVolumes(volumes)
    requires MountDiffs(volumes, mounts, rw).Ok?
    ensures AllRank(MountDiffs(volumes, mounts, rw).value, 4)
  {
    if |mounts| > 0 {
      var (dest, path) := mounts[0];
      MountDiffsRank(volumes, mounts[1..], rw);
      var rest := MountDiffs(volumes, mounts[1..], rw).value;
      var writable := Get(rw, dest).value;
      assert MountDiffs(volumes, mounts, rw).value == MountHead(volumes, dest, path, !writable) + rest;
      if VolumeAt(volumes, dest).Some? {
        VolumeDiffsRank(volumes, VolumeAt(volumes, dest).value, path, !writable);
      }
    }
  }

  lemma VolumeDiffsRank(volumes: Dict<string, Volume>, v: Volume, path: string, ro: bool)
    requires FilesUnderVolumes(volumes)
    requires exists i :: 0 <= i < |volumes| && volumes[i].1 == v
    ensures AllRank(VolumeDiffs(v, path, ro), 4)
  {
    var first := if v.fullpath != path then [Diff(["volumes", v.dest, "path"], Str(v.fullpath), Str(path))] else v.files.GetOr([]);
    assert VolumeDiffs(v, path, ro) == first + CompareValues(["volumes", v.dest, "ro"], Bool(v.ro), Bool(ro));
  }

  lemma {:induction false} UnmountedDiffsRank(volumes: Dict<string, Volume>, mounts: Dict<string, string>)
    ensures AllRank(UnmountedDiffs(volumes, mounts), 4)
  {
    if |volumes| > 0 {
      UnmountedDiffsRank(volumes[1..], mounts);
    }
  }

  lemma {:induction false} ExtraOrChangedRank(expected: Dict<string, Val>, actual: Dict<string, string>)
    ensures AllRank(ExtraOrChanged(expected, actual), 2)
  {
    forall d | d in ExtraOrChanged(expected, actual) ensures Rank(d) == 2 {
      var i :| 0 <= i < |actual| && d.path == EnvPath(actual[i].0);
    }
  }

  lemma {:induction false} MissingRank(expected: Dict<string, Val>, actual: Dict<string, string>)
    ensures AllRank(Missing(expected, actual), 2)
  {
    forall d | d in Missing(expected, actual) ensures Rank(d) == 2 {
      var i :| 0 <= i < |expected| && d.path == EnvPath(expected[i].0) && expected[i].0 !in Keys(actual);
    }
  }

  predicate SortedByRank(r: seq<Diff>) {
    forall a, b :: 0 <= a < b < |r| ==> Rank(r[a]) <= Rank(r[b])
  }

  lemma AllRankSorted(r: seq<Diff>, k: nat)
    requires AllRank(r, k)
    ensures SortedByRank(r)
  {
    forall a, b | 0 <= a < b < |r| ensures Rank(r[a]) <= Rank(r[b]) {
      assert r[a] in r && r[b] in r;
    }
  }

  /** A sorted run followed by a sorted run of no smaller ranks is sorted. */
  lemma AppendSorted(x: seq<Diff>, y: seq<Diff>, k: nat)
    requires SortedByRank(x) && SortedByRank(y)
    requires forall d :: d in x ==> Rank(d) <= k
    requires forall d :: d in y ==> Rank(d) >= k
    ensures SortedByRank(x + y)
    ensures forall d :: d in x + y ==> d in x || d in y
  {
    var r := x + y;
    forall a, b | 0 <= a < b < |r| ensures Rank(r[a]) <= Rank(r[b]) {
      if b < |x| {
        assert r[a] == x[a] && r[b] == x[b];
      } else if a >= |x| {
        assert r[a] == y[a - |x|] && r[b] == y[b - |x|];
      } else {
        assert r[a] == x[a] && r[b] == y[b - |x|];
        assert r[a] in x && r[b] in y;
      }
    }
  }

  lemma GatedInOrder(c: Declared, info: Inspect)
    requires Gated(c, info).Ok?
    ensures SortedByRank(Gated(c, info).value)
    ensures forall d :: d in Gated(c, info).value ==> 1 <= Rank(d) <= 2
  {
    if c.imageId == SplitImage(info.image).1 {
      var expected := ExpectedEnv(Entities.GetEnv(c.image).value, c.env);
      var actualEnv := EnvFromList(info.env).value;
      var command := CommandDiff(c, info).value;
      ExtraOrChangedRank(expected, actualEnv);
      MissingRank(expected, actualEnv);
      var env := CompareEnv(expected, actualEnv);
      assert AllRank(env, 2);
      AllRankSorted(command, 1);
      AllRankSorted(env, 2);
      AppendSorted(command, env, 2);
      assert Gated(c, info).value == command + env;
    }
  }

  /** Differences come section by section: identity fields, command,
      environment, ports, volumes. */
  lemma ContainerDiffsInOrder(c: Declared, info: Inspect)
    requires FilesUnderVolumes(c.volumes)
    requires CompareContainer(c, info).Ok?
    ensures SortedByRank(CompareContainer(c, info).value)
  {
    var identity := CompareFields(IdentityFields(c, info));
    FieldsRank(IdentityFields(c, info));
    AllRankSorted(identity, 0);
    var gated := Gated(c, info).value;
    GatedInOrder(c, info);
    AppendSorted(identity, gated, 1);
    var bindings := info.portBindings.GetOr([]);
    DoorDiffsRank(c.doors, bindings);
    UndeclaredDiffsRank(c.doors, bindings);
    var ports := ComparePorts(c.doors, bindings).value;
    assert AllRank(ports, 3);
    AllRankSorted(ports, 3);
    AppendSorted(identity + gated, ports, 3);
    MountDiffsRank(c.volumes, info.mounts, info.writable);
    UnmountedDiffsRank(c.volumes, info.mounts);
    var volumes := CompareVolumes(c.volumes, info.mounts, info.writable).value;
    assert AllRank(volumes, 4);
    AllRankSorted(volumes, 4);
    AppendSorted(identity + gated + ports, volumes, 4);
  }

  /** When the running container's image id is not the declared one, neither
      its command nor its environment is reported. */
  lemma OtherImageSkipsCommandAndEnv(c: Declared, info: Inspect)
    requires FilesUnderVolumes(c.volumes)
    requires CompareContainer(c, info).Ok?
    requires c.imageId != SplitImage(info.image).1
    ensures forall d :: d in CompareContainer(c, info).value ==> Rank(d) != 1 && Rank(d) != 2
  {
    var identity := CompareFields(IdentityFields(c, info));
    FieldsRank(IdentityFields(c, info));
    var bindings := info.portBindings.GetOr([]);
    DoorDiffsRank(c.doors, bindings);
    UndeclaredDiffsRank(c.doors, bindings);
    var ports := ComparePorts(c.doors, bindings).value;
    assert AllRank(ports, 3);
    MountDiffsRank(c.volumes, info.mounts, info.writable);
    UnmountedDiffsRank(c.volumes, info.mounts);
    var volumes := CompareVolumes(c.volumes, info.mounts, info.writable).value;
    assert AllRank(volumes, 4);
    assert Gated(c, info) == Ok([]);
    var r := CompareContainer(c, info).value;
    assert r == identity + [] + ports + volumes;
    forall d | d in r ensures Rank(d) != 1 && Rank(d) != 2 {
      assert d in identity || d in ports || d in volumes;
    }
  }

  /** Each of the seven identity fields is reported, once, exactly when the
      declared and the running values differ. */
  lemma IdentityFieldReported(c: Declared, info: Inspect, i: nat)
    requires i < 7
    ensures var f := IdentityFields(c, info)[i];
      EntriesAt(CompareFields(IdentityFields(c, info)), [f.0])
        == if PyEq(f.1, f.2) then [] else [Diff([f.0], f.1, f.2)]
  {
    CompareFieldsAt(IdentityFields(c, info), i);
  }

  /** `compare_container` reports nothing exactly when every part reports
      nothing: the running container is the declared one. */
  lemma CompareContainerEmpty(c: Declared, info: Inspect)
    ensures CompareContainer(c, info) == Ok([]) <==>
      (forall i :: 0 <= i < 7 ==> PyEq(IdentityFields(c, info)[i].1, IdentityFields(c, info)[i].2))
      && Gated(c, info) == Ok([])
      && ComparePorts(c.doors, info.portBindings.GetOr([])) == Ok([])
      && CompareVolumes(c.volumes, info.mounts, info.writable) == Ok([])
  {
    var identity := CompareFields(IdentityFields(c, info));
    CompareFieldsEmpty(IdentityFields(c, info));
    var g := Gated(c, info);
    var p := ComparePorts(c.doors, info.portBindings.GetOr([]));
    var v := CompareVolumes(c.volumes, info.mounts, info.writable);
    if g.Ok? && p.Ok? && v.Ok? {
      assert CompareContainer(c, info) == Ok(identity + g.value + p.value + v.value);
      assert |identity + g.value + p.value + v.value| == |identity| + |g.value| + |p.value| + |v.value|;
    }
  }
}
