/** `Settings` (dominator/utils/__init__.py): nested configuration sections
    addressed by dotted paths. `get` walks the sections named by the path,
    skipping empty segments; `set` walks all but the last segment, creating
    missing sections on the way, and stores the value under the last one. */
module Config {
  import opened Wrappers
  import opened Values
  import opened Text
  import opened Dicts

  /** A configuration entry: a scalar, or a section of further entries. */
  datatype Node = Leaf(value: Val) | Section(entries: Dict<string, Node>)

  /** What `get` does with the segments of a path, starting from `node`:
      an empty segment is skipped, a missing key raises KeyError, indexing a
      scalar raises TypeError. */
  function Walk(node: Node, parts: seq<string>): Result<Node>
    decreases |parts|
  {
    if |parts| == 0 then Ok(node)
    else if parts[0] == "" then Walk(node, parts[1..])
    else match node
      case Leaf(_) => Err(TypeError("value is not a section"))
      case Section(d) =>
        match Get(d, parts[0])
        case None => Err(KeyError(parts[0]))
        case Some(child) => Walk(child, parts[1..])
  }

  /** The Python types `get` can convert a found value to: `int`, `str`,
      `bool` and `dict`. */
  datatype Kind = IntKind | StrKind | BoolKind | DictKind

  /** `type(default)`, for a default other than None. */
  function KindOf(n: Node): Option<Kind> {
    match n
    case Leaf(Str(_)) => Some(StrKind)
    case Leaf(Int(_)) => Some(IntKind)
    case Leaf(Bool(_)) => Some(BoolKind)
    case Leaf(Null) => None
    case Section(_) => Some(DictKind)
  }

  /** `repr()` of a configuration entry, as `str()` of a section shows it. */
  function Repr(n: Node): string {
    match n
    case Leaf(Str(s)) => "'" + s + "'"
    case Leaf(v) => PyStr(v)
    case Section(d) =>
      "{" + Join(seq(|d|, i requires 0 <= i < |d| => "'" + d[i].0 + "': " + Repr(d[i].1)), ", ") + "}"
  }

  /** `type_(value)`: Python's `int`, `str`, `bool` and `dict` applied to an
      entry. `int` parses a string and raises ValueError on anything else
      written in it; `int` of None or of a section, and `dict` of a scalar
      other than a string, raise TypeError; `dict` of a non-empty string
      raises ValueError, since its elements are not pairs. */
  function Convert(k: Kind, n: Node): Result<Node> {
    match (k, n)
    case (IntKind, Leaf(Int(i))) => Ok(Leaf(Int(i)))
    case (IntKind, Leaf(Bool(b))) => Ok(Leaf(Int(if b then 1 else 0)))
    case (IntKind, Leaf(Str(s))) =>
      (match ParseInt(s)
       case Some(i) => Ok(Leaf(Int(i)))
       case None => Err(ValueError("invalid literal for int() with base 10")))
    case (IntKind, _) => Err(TypeError("int() argument must be a string or a number"))
    case (StrKind, Leaf(v)) => Ok(Leaf(Str(PyStr(v))))
    case (StrKind, Section(_)) => Ok(Leaf(Str(Repr(n))))
    case (BoolKind, Leaf(v)) => Ok(Leaf(Bool(Truthy(v))))
    case (BoolKind, Section(d)) => Ok(Leaf(Bool(|d| > 0)))
    case (DictKind, Section(d)) => Ok(Section(d))
    case (DictKind, Leaf(Str(s))) =>
      if s == "" then Ok(Section([])) else Err(ValueError("dictionary update sequence element #0 has length 1; 2 is required"))
    case (DictKind, _) => Err(TypeError("object is not iterable"))
  }

  /** The type `get` converts to: the one given, else that of a default other than None. */
  function TargetKind(default: Option<Node>, type_: Option<Kind>): Option<Kind> {
    if type_.None? && default.Some? then KindOf(default.value) else type_
  }

  /** `get(path, default, type_)`: the found value converted to the target
      type, whose failure escapes; a missing key yields the default, as it
      is, when one was given. */
  function Lookup(root: Dict<string, Node>, path: string, default: Option<Node>, type_: Option<Kind>): Result<Node> {
    var r := Walk(Section(root), Split(path, '.'));
    var kind := TargetKind(default, type_);
    if r.Err? then (if r.error.KeyError? && default.Some? then Ok(default.value) else r)
    else if kind.Some? then Convert(kind.value, r.value)
    else r
  }

  /** What `set` does: sections along `parts` (all but the last) are created
      when missing; a scalar on the way raises TypeError. */
  function Assign(d: Dict<string, Node>, parts: seq<string>, v: Node): Result<Dict<string, Node>>
    requires |parts| >= 1
    decreases |parts|
  {
    if |parts| == 1 then Ok(Put(d, parts[0], v))
    else match Get(d, parts[0]).GetOr(Section([]))
      case Leaf(_) => Err(TypeError("value is not a section"))
      case Section(child) =>
        var inner :- Assign(child, parts[1..], v);
        Ok(Put(d, parts[0], Section(inner)))
  }

  /** Puts a rebuilt innermost section back into the sections it was found in. */
  ghost function Wrap(trail: seq<Dict<string, Node>>, keys: seq<string>, inner: Result<Dict<string, Node>>): Result<Dict<string, Node>>
    requires |trail| == |keys|
  {
    if |trail| == 0 || inner.Err? then inner
    else
      var n := |trail| - 1;
      Wrap(trail[..n], keys[..n], Ok(Put(trail[n], keys[n], Section(inner.value))))
  }

  predicate NoEmptySegment(parts: seq<string>) {
    forall i :: 0 <= i < |parts| ==> parts[i] != ""
  }

  class Settings {
    var data: Dict<string, Node>

    constructor ()
      ensures data == []
    {
      data := [];
    }

    /** `get`: walks the sections with a loop, as the source does. */
    method Get(path: string, default: Option<Node>, type_: Option<Kind>) returns (r: Result<Node>)
      ensures r == Lookup(data, path, default, type_)
    {
      var kind := TargetKind(default, type_);
      var parts := Split(path, '.');
      var value := Section(data);
      var j := 0;
      while j < |parts|
        invariant 0 <= j <= |parts|
        invariant Walk(Section(data), parts) == Walk(value, parts[j..])
      {
        assert parts[j..][1..] == parts[j + 1..];
        if parts[j] != "" {
          if value.Leaf? {
            r := Err(TypeError("value is not a section"));
            return;
          }
          var child := Dicts.Get(value.entries, parts[j]);
          if child.None? {
            r := if default.Some? then Ok(default.value) else Err(KeyError(parts[j]));
            return;
          }
          value := child.value;
        }
        j := j + 1;
      }
      r := if kind.Some? then Convert(kind.value, value) else Ok(value);
    }

    /** `set`: the first loop walks and creates sections as the source does; the
        second writes the rebuilt sections back, which the source gets for free
        from updating its dictionaries in place. A scalar on the way raises
        TypeError before anything is changed. */
    method Set(path: string, value: Node) returns (r: Result<()>)
      modifies this
      ensures var a := Assign(old(data), Split(path, '.'), value);
        && (a.Ok? ==> r.Ok? && data == a.value)
        && (a.Err? ==> r == Err(a.error) && data == old(data))
    {
      var parts := Split(path, '.');
      var n := |parts| - 1;
      var trail: seq<Dict<string, Node>> := [];
      var section := data;
      var j := 0;
      while j < n
        invariant 0 <= j <= n && |trail| == j
        invariant data == old(data)
        invariant Assign(data, parts, value) == Wrap(trail, parts[..j], Assign(section, parts[j..], value))
      {
        assert parts[j..][1..] == parts[j + 1..];
        var next := Dicts.Get(section, parts[j]).GetOr(Section([]));
        if next.Leaf? {
          assert Assign(section, parts[j..], value) == Err(TypeError("value is not a section"));
          r := Err(TypeError("value is not a section"));
          WrapErr(trail, parts[..j], TypeError("value is not a section"));
          return;
        }
        WrapStep(trail, parts[..j], section, parts[j], Assign(next.entries, parts[j + 1..], value));
        assert parts[..j + 1] == parts[..j] + [parts[j]];
        trail, section := trail + [section], next.entries;
        j := j + 1;
      }
      assert parts[j..] == [parts[n]];
      var rebuilt := Put(section, parts[n], value);
      assert Assign(section, parts[j..], value) == Ok(rebuilt);
      assert trail[..n] == trail;
      var k := n;
      while k > 0
        invariant 0 <= k <= n
        invariant data == old(data)
        invariant Assign(data, parts, value) == Wrap(trail[..k], parts[..k], Ok(rebuilt))
      {
        assert trail[..k][..k - 1] == trail[..k - 1];
        assert parts[..k][..k - 1] == parts[..k - 1];
        rebuilt := Put(trail[k - 1], parts[k - 1], Section(rebuilt));
        k := k - 1;
      }
      data := rebuilt;
      r := Ok(());
    }
  }

  lemma WrapErr(trail: seq<Dict<string, Node>>, keys: seq<string>, e: Exception)
    requires |trail| == |keys|
    ensures Wrap(trail, keys, Err(e)) == Err(e)
  {
  }

  lemma WrapStep(trail: seq<Dict<string, Node>>, keys: seq<string>, section: Dict<string, Node>, key: string, inner: Result<Dict<string, Node>>)
    requires |trail| == |keys|
    ensures Wrap(trail + [section], keys + [key], inner)
         == Wrap(trail, keys, if inner.Err? then Err(inner.error) else Ok(Put(section, key, Section(inner.value))))
  {
    if inner.Ok? {
      assert (trail + [section])[..|trail|] == trail;
      assert (keys + [key])[..|keys|] == keys;
    }
  }

  /** `get('')` (any path made only of dots) returns the whole configuration,
      converted to the type of the default when one other than None is given. */
  lemma EmptyPathIsWhole(root: Dict<string, Node>, path: string, default: Option<Node>)
    requires forall i :: 0 <= i < |path| ==> path[i] == '.'
    ensures Lookup(root, path, default, None)
         == if default.Some? && KindOf(default.value).Some? then Convert(KindOf(default.value).value, Section(root))
            else Ok(Section(root))
  {
    SplitOnlySeparators(path, '.');
    SkipEmpty(Section(root), Split(path, '.'));
  }

  lemma {:induction false} SkipEmpty(node: Node, parts: seq<string>)
    requires forall i :: 0 <= i < |parts| ==> parts[i] == ""
    ensures Walk(node, parts) == Ok(node)
  {
    if |parts| > 0 {
      SkipEmpty(node, parts[1..]);
    }
  }

  /** A missing key raises KeyError without a default and yields the default,
      not converted, with one. */
  lemma MissingKeyUsesDefault(root: Dict<string, Node>, key: string, default: Node, type_: Option<Kind>)
    requires key != "" && '.' !in key
    requires Dicts.Get(root, key).None?
    ensures Lookup(root, key, None, type_) == Err(KeyError(key))
    ensures Lookup(root, key, Some(default), type_) == Ok(default)
  {
    SplitNoSeparator(key, '.');
  }

  /** A value found under a key is converted to the type of the default:
      with an integer default, the text of a number becomes that number and
      any other text raises ValueError. */
  lemma FoundValueTakesDefaultType(root: Dict<string, Node>, key: string, s: string, d: int)
    requires key != "" && '.' !in key
    requires Dicts.Get(root, key) == Some(Leaf(Str(s)))
    ensures ParseInt(s).Some? ==> Lookup(root, key, Some(Leaf(Int(d))), None) == Ok(Leaf(Int(ParseInt(s).value)))
    ensures ParseInt(s).None? ==>
      Lookup(root, key, Some(Leaf(Int(d))), None).Err? && Lookup(root, key, Some(Leaf(Int(d))), None).error.ValueError?
  {
    SplitNoSeparator(key, '.');
    assert Walk(Section(root), [key]) == Walk(Leaf(Str(s)), [key][1..]);
  }

  /** `get(key, default=0)` reads back the number `set(key, str(i))` stored. */
  lemma NumberTextReadsBack(root: Dict<string, Node>, key: string, i: int, d: int)
    requires key != "" && '.' !in key
    requires Dicts.Get(root, key) == Some(Leaf(Str(IntText(i))))
    ensures Lookup(root, key, Some(Leaf(Int(d))), None) == Ok(Leaf(Int(i)))
  {
    ParseIntText(i);
    FoundValueTakesDefaultType(root, key, IntText(i), d);
  }

  /** A conversion that succeeds yields a value of the requested type, and
      a value that already has the type comes back unchanged. */
  lemma ConvertGivesKind(k: Kind, n: Node)
    ensures Convert(k, n).Ok? ==> KindOf(Convert(k, n).value) == Some(k)
    ensures KindOf(n) == Some(k) ==> Convert(k, n) == Ok(n)
  {
  }

  /** After a successful `set(path, v)` on a path without empty segments,
      `get(path)` returns `v`. */
  lemma {:induction false} GetAfterSet(d: Dict<string, Node>, parts: seq<string>, v: Node)
    requires |parts| >= 1 && NoEmptySegment(parts)
    requires Assign(d, parts, v).Ok?
    ensures Walk(Section(Assign(d, parts, v).value), parts) == Ok(v)
    decreases |parts|
  {
    var key := parts[0];
    assert key != "";
    if |parts| == 1 {
      GetPut(d, key, v, key);
      assert Walk(v, parts[1..]) == Ok(v);
    } else {
      var child := Get(d, key).GetOr(Section([]));
      assert child.Section?;
      var inner := Assign(child.entries, parts[1..], v).value;
      assert Assign(d, parts, v) == Ok(Put(d, key, Section(inner)));
      GetPut(d, key, Section(inner), key);
      assert NoEmptySegment(parts[1..]) by {
        assert forall i :: 1 <= i < |parts| ==> parts[1..][i - 1] == parts[i];
      }
      GetAfterSet(child.entries, parts[1..], v);
      assert Walk(Section(Put(d, key, Section(inner))), parts) == Walk(Section(inner), parts[1..]);
    }
  }

  /** `set` leaves every other top-level entry as it was. */
  lemma SetKeepsOtherKeys(d: Dict<string, Node>, parts: seq<string>, v: Node, other: string)
    requires |parts| >= 1 && other != parts[0]
    requires Assign(d, parts, v).Ok?
    ensures Dicts.Get(Assign(d, parts, v).value, other) == Dicts.Get(d, other)
  {
    if |parts| == 1 {
      GetPut(d, parts[0], v, other);
    } else {
      var child := Get(d, parts[0]).GetOr(Section([]));
      GetPut(d, parts[0], Section(Assign(child.entries, parts[1..], v).value), other);
    }
  }

  /** `set` through a scalar fails with TypeError. */
  lemma SetThroughScalarFails(d: Dict<string, Node>, parts: seq<string>, v: Node, x: Val)
    requires |parts| >= 2 && Dicts.Get(d, parts[0]) == Some(Leaf(x))
    ensures Assign(d, parts, v).Err? && Assign(d, parts, v).error.TypeError?
  {
  }
}
