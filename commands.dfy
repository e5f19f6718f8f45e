/** The click commands of dominator/actions/__init__.py: the selection of
    the objects a command group works on, the per-container commands that
    check a container and then stop, restart, remove or run it, the status
    line's colour, the printing of a difference list, the YAML string style
    and the log level option. */
module Commands {
  import opened Wrappers
  import opened Values
  import opened Text
  import opened Dicts
  import opened Sorting
  import opened Runtime
  import opened Entities
  import Differ

  // ----- Selecting what a command group works on -----

  /** The regular expression a `--pattern` stands for: itself with `--regex`,
      else the translation of the shell-style wildcard. */
  function PatternRegex(pattern: string, regex: bool, translate: string -> string): string {
    if regex then pattern else translate(pattern)
  }

  /** `filterbyname`: the objects whose full name the pattern matches at its
      start (`re.match`), sorted by full name. `translate` stands for
      `fnmatch.translate` and `rematch(regex, s)` for `re.match`. */
  function FilterByName<T(!new)>(objects: seq<T>, pattern: string, regex: bool, translate: string -> string,
                                 rematch: (string, string) -> bool, fullname: T -> string): (r: seq<T>)
    ensures SortedBy(r, fullname)
    ensures forall x :: multiset(r)[x] == (if rematch(PatternRegex(pattern, regex, translate), fullname(x)) then multiset(objects)[x] else 0)
  {
    var re := PatternRegex(pattern, regex, translate);
    var matched := Filter(objects, o => rematch(re, fullname(o)));
    MakeSortedSortsAndPermutes(matched, fullname);
    MakeSorted(matched, fullname)
  }

  /** Selecting by full name does not depend on the order the shipment
      lists its objects in, when full names are distinct. */
  lemma FilterByNameIgnoresOrder<T(!new)>(objects: seq<T>, others: seq<T>, pattern: string, regex: bool,
                                          translate: string -> string, rematch: (string, string) -> bool, fullname: T -> string)
    requires multiset(objects) == multiset(others)
    requires DistinctKeys(objects, fullname)
    ensures FilterByName(objects, pattern, regex, translate, rematch, fullname)
         == FilterByName(others, pattern, regex, translate, rematch, fullname)
  {
    var re := PatternRegex(pattern, regex, translate);
    var p := o => rematch(re, fullname(o));
    var a, b := Filter(objects, p), Filter(others, p);
    assert multiset(a) == multiset(b);
    assert a == Filter(objects, (o: T) => rematch(PatternRegex(pattern, regex, translate), fullname(o)));
    forall i, j | 0 <= i < j < |a| ensures fullname(a[i]) != fullname(a[j]) {
      DistinctSubset(objects, a, fullname, i, j);
    }
    SortIgnoresOrder(a, b, fullname);
  }

  lemma DistinctSubset<T>(xs: seq<T>, ys: seq<T>, key: T -> string, i: nat, j: nat)
    requires DistinctKeys(xs, key)
    requires forall x :: multiset(ys)[x] <= multiset(xs)[x]
    requires i < j < |ys|
    ensures key(ys[i]) != key(ys[j])
  {
    if key(ys[i]) == key(ys[j]) {
      assert ys[i] in multiset(xs) && ys[j] in multiset(xs);
      var a :| 0 <= a < |xs| && xs[a] == ys[i];
      var b :| 0 <= b < |xs| && xs[b] == ys[j];
      if a == b {
        CountTwo(ys, i, j);
        CountAtMostOne(xs, key, xs[a]);
      }
    }
  }

  /** An image of the shipment: one pulled from a registry, or one dominator
      builds from source. */
  datatype ShipmentImage = RegistryImage(image: Image) | BuiltImage(source: SourceImage)

  /** The `image` group: the images built from source whose repository the
      pattern matches, in the shipment's order. */
  function ImageGroup(images: seq<ShipmentImage>, pattern: string, regex: bool, translate: string -> string,
                      rematch: (string, string) -> bool): (r: seq<ShipmentImage>)
    ensures forall x :: x in r <==>
      x in images && x.BuiltImage? && rematch(PatternRegex(pattern, regex, translate), x.source.repository)
    ensures forall x :: multiset(r)[x] == (if x.BuiltImage? && rematch(PatternRegex(pattern, regex, translate), x.source.repository)
                                           then multiset(images)[x] else 0)
  {
    var re := PatternRegex(pattern, regex, translate);
    Filter(images, (i: ShipmentImage) => i.BuiltImage? && rematch(re, i.source.repository))
  }

  /** The group keeps the shipment's order: the group of two parts of the
      shipment is the group of the first part followed by that of the second,
      and a single image is kept iff it matches. Together these fix the group
      to the matching images in build order. */
  lemma ImageGroupInOrder(a: seq<ShipmentImage>, b: seq<ShipmentImage>, pattern: string, regex: bool,
                          translate: string -> string, rematch: (string, string) -> bool)
    ensures ImageGroup(a + b, pattern, regex, translate, rematch)
         == ImageGroup(a, pattern, regex, translate, rematch) + ImageGroup(b, pattern, regex, translate, rematch)
  {
    var re := PatternRegex(pattern, regex, translate);
    FilterConcat(a, b, (i: ShipmentImage) => i.BuiltImage? && rematch(re, i.source.repository));
  }

  lemma ImageGroupOfOne(x: ShipmentImage, pattern: string, regex: bool, translate: string -> string,
                        rematch: (string, string) -> bool)
    ensures ImageGroup([x], pattern, regex, translate, rematch)
         == if x.BuiltImage? && rematch(PatternRegex(pattern, regex, translate), x.source.repository) then [x] else []
  {
    assert [x][1..] == [];
  }

  // ----- Log level option -----

  /** `logging._nameToLevel`. */
  const LevelNames: Dict<string, int> :=
    [("CRITICAL", 50), ("FATAL", 50), ("ERROR", 40), ("WARN", 30), ("WARNING", 30), ("INFO", 20), ("DEBUG", 10), ("NOTSET", 0)]

  /** `validate_loglevel` as written: a number, or else a level name in any
      case. An unknown name makes the lookup raise KeyError, which the
      handler for ValueError does not catch. */
  function ValidateLoglevel(value: string): (r: Result<int>) {
    match ParseInt(value)
    case Some(level) => Ok(level)
    case None =>
      match Get(LevelNames, Upper(value))
      case Some(level) => Ok(level)
      case None => Err(KeyError(Upper(value)))
  }

  /** Every number, negative ones included, is taken as the level its text spells. */
  lemma LoglevelNumber(i: int)
    ensures ValidateLoglevel(IntText(i)) == Ok(i)
  {
    ParseIntText(i);
  }

  /** The option's default, 'warn', is the WARNING level. */
  lemma LoglevelDefault()
    ensures ValidateLoglevel("warn") == Ok(30)
  {
    assert ParseNat("warn").None?;
    assert Upper("warn") == "WARN";
  }

  /** As written, the BadParameter the handler was meant to raise never is:
      a bad level escapes as KeyError. */
  lemma LoglevelNeverBadParameter(value: string)
    ensures ValidateLoglevel(value).Err? ==> ValidateLoglevel(value).error == KeyError(Upper(value))
  {
  }

  /** 'verbose' is no level: as written it escapes as KeyError. */
  lemma UnknownLoglevel()
    ensures ValidateLoglevel("verbose") == Err(KeyError("VERBOSE"))
  {
    assert ParseNat("verbose").None?;
    assert Upper("verbose") == "VERBOSE";
    assert Get(LevelNames, "VERBOSE").None?;
  }

  /** The option as intended: the same levels, and a click BadParameter for
      anything else. */
  function CheckedLoglevel(value: string): (r: Result<int>)
    ensures r.Ok? <==> ParseInt(value).Some? || Upper(value) in Keys(LevelNames)
    ensures r.Err? ==> r.error == BadParameter("loglevel should be logging level name or number")
    ensures ValidateLoglevel(value).Ok? ==> r == ValidateLoglevel(value)
  {
    match ValidateLoglevel(value)
    case Ok(level) => Ok(level)
    case Err(_) => Err(BadParameter("loglevel should be logging level name or number"))
  }

  // ----- YAML output -----

  /** A YAML scalar node: its tag, its text and its style, if any. */
  datatype ScalarNode = ScalarNode(tag: string, value: string, style: Option<char>)

  /** `literal_str_representer`: strings with a line break are written in
      the literal block style '|' (section 8.1.2 of YAML 1.2), others in the
      default style. */
  function LiteralStrRepresenter(data: string): (node: ScalarNode)
    ensures node.tag == "tag:yaml.org,2002:str" && node.value == data
    ensures node.style.Some? <==> '\n' in data
    ensures node.style.Some? ==> node.style.value == '|'
  {
    ScalarNode("tag:yaml.org,2002:str", data, if '\n' in data then Some('|') else None)
  }

  // ----- Printing differences -----

  datatype Color = Plain | Red | Green | Yellow | Blue

  /** The colour of one line of a file comparison, from its two-character prefix. */
  function LineColor(line: string): (c: Color)
    ensures c == Red <==> StartsWith(line, "- ")
    ensures c == Green <==> StartsWith(line, "+ ")
    ensures c == Blue <==> StartsWith(line, "? ")
    ensures c != Yellow
  {
    var head := if |line| < 2 then line else line[..2];
    if head == "- " then Red
    else if head == "+ " then Green
    else if head == "? " then Blue
    else Plain
  }

  /** The second half of a difference record: the lines of a file
      comparison (a list), or a tuple of values. */
  datatype Shown = FileLines(lines: seq<string>) | Tuple(items: seq<Val>)

  /** One printed line: a file comparison line in its colour, or the actual
      value (red) followed by the expected one (green). */
  datatype Printed =
    | LinePrinted(key: string, color: Color, line: string)
    | PairPrinted(key: string, actual: Val, expected: Val)

  /** What `print_diff` wrote, and the exception that stopped it, if any. */
  datatype Printout = Printout(lines: seq<Printed>, failure: Option<Exception>)

  predicate WellShaped(s: Shown) {
    s.FileLines? || |s.items| == 2
  }

  /** The lines printed for one record; a tuple that is not a pair fails the assertion. */
  function PrintRecord(key: seq<string>, diff: Shown): (r: Result<seq<Printed>>)
    ensures r.Ok? <==> WellShaped(diff)
    ensures r.Err? ==> r.error.AssertionError?
    ensures diff.FileLines? ==> |r.value| == |diff.lines| && forall i :: 0 <= i < |diff.lines| ==>
      r.value[i] == LinePrinted(Join(key, " "), LineColor(diff.lines[i]), diff.lines[i])
    ensures diff.Tuple? && |diff.items| == 2 ==> r.value == [PairPrinted(Join(key, " "), diff.items[1], diff.items[0])]
  {
    var keystr := Join(key, " ");
    match diff
    case FileLines(lines) =>
      Ok(seq(|lines|, i requires 0 <= i < |lines| => LinePrinted(keystr, LineColor(lines[i]), lines[i])))
    case Tuple(items) =>
      if |items| == 2 then Ok([PairPrinted(keystr, items[1], items[0])])
      else Err(AssertionError("invalid diff format"))
  }

  /** `print_diff`: the records in order; the lines of the records before a
      malformed one are already out when it fails. */
  function PrintDiff(difflist: seq<(seq<string>, Shown)>): (out: Printout)
    ensures out.failure.None? <==> forall i :: 0 <= i < |difflist| ==> WellShaped(difflist[i].1)
  {
    if |difflist| == 0 then Printout([], None)
    else
      match PrintRecord(difflist[0].0, difflist[0].1)
      case Err(e) => Printout([], Some(e))
      case Ok(head) =>
        var rest := PrintDiff(difflist[1..]);
        assert forall i :: 1 <= i < |difflist| ==> difflist[i] == difflist[1..][i - 1];
        Printout(head + rest.lines, rest.failure)
  }

  /** The records the differencer returns, as `print_diff` receives them. */
  function Records(diffs: seq<Differ.Diff>): seq<(seq<string>, Shown)> {
    Map(diffs, (d: Differ.Diff) => (d.path, Tuple([d.expected, d.actual])))
  }

  function PairLines(diffs: seq<Differ.Diff>): seq<Printed> {
    Map(diffs, (d: Differ.Diff) => PairPrinted(Join(d.path, " "), d.actual, d.expected))
  }

  /** A difference list from the differencer prints completely, one line per
      difference, each with the value found before the value declared. */
  lemma {:induction false} PrintDiffOfDiffs(diffs: seq<Differ.Diff>)
    ensures PrintDiff(Records(diffs)) == Printout(PairLines(diffs), None)
  {
    if |diffs| > 0 {
      PrintDiffOfDiffs(diffs[1..]);
      assert Records(diffs)[1..] == Records(diffs[1..]);
      assert PairLines(diffs) == [PairLines(diffs)[0]] + PairLines(diffs[1..]);
    }
  }

  /** Everything before the first malformed record is printed, then the
      assertion fails. */
  lemma {:induction false} PrintDiffStopsAtMalformed(difflist: seq<(seq<string>, Shown)>, k: nat)
    requires k < |difflist| && !WellShaped(difflist[k].1)
    requires forall i :: 0 <= i < k ==> WellShaped(difflist[i].1)
    ensures PrintDiff(difflist).failure.Some? && PrintDiff(difflist).failure.value.AssertionError?
    ensures PrintDiff(difflist).lines == PrintDiff(difflist[..k]).lines
  {
    if k > 0 {
      PrintDiffStopsAtMalformed(difflist[1..], k - 1);
      assert difflist[..k][1..] == difflist[1..][..k - 1];
    }
  }

  // ----- Per-container commands -----

  /** A container that was never found is not running. */
  lemma NotFoundIsDown()
    ensures !IsUp("not found")
  {
    NotUp("not found");
  }

  /** A stop followed by `run` retires the container holding the name just
      as `run` alone would, and never keeps it. */
  lemma HaltedThenRetired(entries: seq<Entry>, d: Declaration)
    ensures Vacated(Halted(entries, d.name), d.name) == Vacated(entries, d.name)
    ensures Halts(entries, d.name) + Retired(Halted(entries, d.name), d.name) == Retired(entries, d.name)
    ensures !Kept(Halted(entries, d.name), d)
  {
    HaltThenEvict(entries, d.name);
  }

  lemma HaltsChanges(t: seq<Event>, entries: seq<Entry>, name: string)
    ensures Changes(t + Halts(entries, name)) == Changes(t) + Halts(entries, name)
  {
    match FindName(entries, name)
    case None => assert t + [] == t;
    case Some(n) =>
      if IsUp(entries[n].status) {
        ChangesSnoc(t, Stopped(entries[n].id));
      } else {
        assert t + [] == t;
      }
  }

  /** The `stop` command: checks the container and stops it only when it runs. */
  method StopCommand(cont: Container)
    requires cont.daemon.Valid()
    modifies cont, cont.daemon
    ensures cont.daemon.Valid() && cont.decl == old(cont.decl)
    ensures cont.daemon.available == old(cont.daemon.available) && cont.daemon.registry == old(cont.daemon.registry)
    ensures cont.daemon.next == old(cont.daemon.next)
    ensures cont.daemon.entries == Halted(old(cont.daemon.entries), cont.decl.name)
    ensures cont.daemon.trace == old(cont.daemon.trace) + Halts(old(cont.daemon.entries), cont.decl.name)
    ensures !cont.Running()
  {
    cont.Check(None);
    NotFoundIsDown();
    var daemon := cont.daemon;
    if cont.Running() {
      ghost var n := FindName(daemon.entries, cont.decl.name).value;
      assert Halts(daemon.entries, cont.decl.name) == [Stopped(cont.id)];
      daemon.IdsDistinct();
      FindIdUnique(daemon.entries, n);
      var stopped := cont.Stop();
    } else {
      assert Halts(daemon.entries, cont.decl.name) == [];
      assert daemon.trace + [] == daemon.trace;
    }
  }

  /** The `restart` command: stops the container if it runs, then runs it.
      The container found is therefore always replaced, even one running
      what was declared. */
  method Restart(cont: Container, dirs: VolumeDirs) returns (r: Result<()>)
    requires cont.daemon.Valid()
    modifies cont, cont.daemon
    ensures cont.daemon.Valid() && cont.decl == old(cont.decl) && cont.daemon.registry == old(cont.daemon.registry)
    ensures !Obtainable(old(cont.daemon.available), cont.daemon.registry, cont.decl.image) ==>
      && r.Err? && r.error != ApiError(409)
      && cont.daemon.entries == Halted(old(cont.daemon.entries), cont.decl.name)
      && Changes(cont.daemon.trace) == Changes(old(cont.daemon.trace)) + Halts(old(cont.daemon.entries), cont.decl.name)
    ensures Obtainable(old(cont.daemon.available), cont.daemon.registry, cont.decl.image) ==>
      && r.Ok? && cont.Running()
      && cont.daemon.entries == Vacated(old(cont.daemon.entries), cont.decl.name) + [Launched(cont.decl, dirs, old(cont.daemon.next), cont.id)]
      && Changes(cont.daemon.trace)
         == Changes(old(cont.daemon.trace)) + Retired(old(cont.daemon.entries), cont.decl.name) + [Created(cont.decl.name, cont.id), Started(cont.id)]
  {
    ghost var entries, trace := cont.daemon.entries, cont.daemon.trace;
    StopCommand(cont);
    HaltedThenRetired(entries, cont.decl);
    HaltsChanges(trace, entries, cont.decl.name);
    r := cont.Run(dirs);
    Regroup(Changes(trace), Halts(entries, cont.decl.name), Retired(Halted(entries, cont.decl.name), cont.decl.name),
            [Created(cont.decl.name, cont.id), Started(cont.id)]);
  }

  /** `a + b + c + d` regrouped, stated once for the traces of `restart`. */
  lemma Regroup(a: seq<Event>, b: seq<Event>, c: seq<Event>, d: seq<Event>)
    ensures a + b + c + d == a + (b + c) + d
  {
  }

  /** The `remove` command: checks the container and removes it, which the
      daemon refuses for a running one and for one it does not have. */
  method RemoveCommand(cont: Container) returns (r: Result<()>)
    requires cont.daemon.Valid()
    modifies cont, cont.daemon
    ensures cont.daemon.Valid() && cont.decl == old(cont.decl)
    ensures cont.daemon.available == old(cont.daemon.available) && cont.daemon.registry == old(cont.daemon.registry)
    ensures FindName(old(cont.daemon.entries), cont.decl.name).None? ==>
      r == Err(ApiError(404)) && cont.daemon.entries == old(cont.daemon.entries) && cont.daemon.trace == old(cont.daemon.trace)
    ensures FindName(old(cont.daemon.entries), cont.decl.name).Some? ==>
      var e := old(cont.daemon.entries)[FindName(old(cont.daemon.entries), cont.decl.name).value];
      if IsUp(e.status) then
        r == Err(ApiError(409)) && cont.daemon.entries == old(cont.daemon.entries) && cont.daemon.trace == old(cont.daemon.trace)
      else
        && r.Ok? && cont.id == "" && cont.status == "not found"
        && cont.daemon.entries == Vacated(old(cont.daemon.entries), cont.decl.name)
        && cont.daemon.trace == old(cont.daemon.trace) + [Removed(e.id)]
  {
    cont.Check(None);
    var daemon := cont.daemon;
    if FindName(daemon.entries, cont.decl.name).Some? {
      ghost var n := FindName(daemon.entries, cont.decl.name).value;
      daemon.IdsDistinct();
      FindIdUnique(daemon.entries, n);
    }
    r := cont.Remove(false);
  }

  /** The colour of a container's status line. */
  function StatusColor(running: bool, diffEmpty: bool): (c: Color)
    ensures c == Red <==> !running
    ensures c == Green <==> running && diffEmpty
    ensures c == Yellow <==> running && !diffEmpty
  {
    if !running then Red else if diffEmpty then Green else Yellow
  }

  /** The `status` command: red when the container is not running, green
      when it runs what was declared, which is exactly when `run` would keep
      it, and yellow otherwise. */
  method StatusCommand(c: Container) returns (color: Color)
    requires c.daemon.Valid()
    modifies c
    ensures c.decl == old(c.decl)
    ensures color == Red <==>
      FindName(c.daemon.entries, c.decl.name).None? || !IsUp(c.daemon.entries[FindName(c.daemon.entries, c.decl.name).value].status)
    ensures color == Green <==> Kept(c.daemon.entries, c.decl)
    ensures color != Plain && color != Blue
  {
    c.Check(None);
    NotFoundIsDown();
    var daemon := c.daemon;
    if c.Running() {
      ghost var n := FindName(daemon.entries, c.decl.name).value;
      daemon.IdsDistinct();
      FindIdUnique(daemon.entries, n);
      color := StatusColor(true, SameAsDeclared(daemon.Inspect(c.id), c.decl));
    } else {
      color := StatusColor(false, true);
    }
  }

  /** `common_exec`: executes the container and, unless asked to keep it,
      force-removes whatever container it then names, ignoring any failure
      of the removal; a failure of the execution still propagates. */
  method Exec(cont: Container, dirs: VolumeDirs, keep: bool) returns (r: Result<()>, ghost cid: string)
    requires cont.daemon.Valid()
    modifies cont, cont.daemon
    ensures cont.daemon.Valid() && cont.decl == old(cont.decl) && cont.daemon.registry == old(cont.daemon.registry)
    ensures !Obtainable(old(cont.daemon.available), cont.daemon.registry, cont.decl.image) ==>
      && r.Err? && r.error != ApiError(409) && cid == old(cont.id)
      && (FindId(old(cont.daemon.entries), cid).None? ==>
            cont.daemon.entries == old(cont.daemon.entries) && Changes(cont.daemon.trace) == Changes(old(cont.daemon.trace)))
      && (FindId(old(cont.daemon.entries), cid).Some? ==>
            var i := FindId(old(cont.daemon.entries), cid).value;
            && cont.daemon.entries == (if keep then old(cont.daemon.entries)[i := old(cont.daemon.entries)[i].(status := StatusAfterStop(old(cont.daemon.entries)[i].status))]
                                       else RemoveAt(old(cont.daemon.entries), i))
            && Changes(cont.daemon.trace) == Changes(old(cont.daemon.trace)) + [Stopped(cid)] + (if keep then [] else [Removed(cid)]))
    ensures Obtainable(old(cont.daemon.available), cont.daemon.registry, cont.decl.image) ==>
      && r.Ok?
      && cont.daemon.entries == Vacated(old(cont.daemon.entries), cont.decl.name)
                                + (if keep then [Launched(cont.decl, dirs, old(cont.daemon.next), cid).(status := "Exited")] else [])
      && Changes(cont.daemon.trace) == Changes(old(cont.daemon.trace)) + Evicted(old(cont.daemon.entries), cont.decl.name)
                                       + [Created(cont.decl.name, cid), Started(cid), Stopped(cid)] + (if keep then [] else [Removed(cid)])
  {
    ghost var entries := cont.daemon.entries;
    ghost var next := cont.daemon.next;
    r := cont.Execute(dirs);
    cid := cont.id;
    if keep {
      assert Vacated(entries, cont.decl.name) + [Launched(cont.decl, dirs, next, cid).(status := "Exited")] + []
          == Vacated(entries, cont.decl.name) + [Launched(cont.decl, dirs, next, cid).(status := "Exited")];
      return;
    }
    var daemon := cont.daemon;
    daemon.IdsDistinct();
    if r.Ok? {
      ghost var vacated := Vacated(entries, cont.decl.name);
      FindIdUnique(daemon.entries, |vacated|);
      RemoveLast(vacated, Launched(cont.decl, dirs, next, cid).(status := "Exited"));
    } else if FindId(entries, cid).Some? {
      ghost var i := FindId(entries, cid).value;
      StatusKeepsLookups(entries, i, StatusAfterStop(entries[i].status), cid, cont.decl.name);
    }
    RemoveForced(cont);
  }

  /** The `finally` of `common_exec` without `--keep`: a forced removal of
      the container named, whose failure is ignored. */
  method RemoveForced(cont: Container)
    requires cont.daemon.Valid()
    modifies cont, cont.daemon
    ensures cont.daemon.Valid()
    ensures cont.decl == old(cont.decl) && cont.daemon.registry == old(cont.daemon.registry)
    ensures FindId(old(cont.daemon.entries), old(cont.id)).None? ==>
      cont.daemon.entries == old(cont.daemon.entries) && cont.daemon.trace == old(cont.daemon.trace)
    ensures FindId(old(cont.daemon.entries), old(cont.id)).Some? ==>
      && cont.daemon.entries == RemoveAt(old(cont.daemon.entries), FindId(old(cont.daemon.entries), old(cont.id)).value)
      && Changes(cont.daemon.trace) == Changes(old(cont.daemon.trace)) + [Removed(old(cont.id))]
  {
    ghost var t := cont.daemon.trace;
    ghost var gone := cont.id;
    var removed := cont.Remove(true);
    if removed.Ok? {
      ChangesSnoc(t, Removed(gone));
    }
  }
}
