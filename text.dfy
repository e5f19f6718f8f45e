/** The handful of Python `str` operations the modelled code relies on:
    `split`, `join`, `startswith`, `endswith`, `in`, `replace`, `upper`,
    `str(int)` and `int(str)`. Strings are sequences of characters; no
    Unicode case mapping or normalisation is modelled. */
module Text {
  import opened Wrappers

  /** `s.split(c)`: the pieces between occurrences of `c`, always at least one. */
  function Split(s: string, c: char): (parts: seq<string>)
    ensures |parts| >= 1
    ensures forall i :: 0 <= i < |parts| ==> c !in parts[i]
  {
    if |s| == 0 then [""]
    else
      var rest := Split(s[1..], c);
      if s[0] == c then [""] + rest
      else [[s[0]] + rest[0]] + rest[1..]
  }

  /** `sep.join(parts)`. */
  function Join(parts: seq<string>, sep: string): string {
    if |parts| == 0 then ""
    else if |parts| == 1 then parts[0]
    else parts[0] + sep + Join(parts[1..], sep)
  }

  /** `sep.join(xs)` on a list Docker may report as null: joining None raises TypeError. */
  function JoinList(xs: Option<seq<string>>, sep: string): Result<string> {
    match xs
    case None => Err(TypeError("can only join an iterable"))
    case Some(parts) => Ok(Join(parts, sep))
  }

  /** Joining the pieces of a split with the separator gives back the string. */
  lemma {:induction false} JoinSplit(s: string, c: char)
    ensures Join(Split(s, c), [c]) == s
  {
    if |s| > 0 {
      JoinSplit(s[1..], c);
      var rest := Split(s[1..], c);
      if s[0] == c {
        assert s == [c] + s[1..];
      } else if |rest| == 1 {
        assert s == [s[0]] + s[1..];
      } else {
        assert Join(rest, [c]) == rest[0] + [c] + Join(rest[1..], [c]);
        assert s == [s[0]] + s[1..];
      }
    }
  }

  /** Splitting a join of separator-free pieces gives back the pieces. */
  lemma {:induction false} SplitJoin(parts: seq<string>, c: char)
    requires |parts| >= 1
    requires forall i :: 0 <= i < |parts| ==> c !in parts[i]
    ensures Split(Join(parts, [c]), c) == parts
  {
    if |parts| == 1 {
      SplitNoSeparator(parts[0], c);
    } else {
      SplitJoin(parts[1..], c);
      SplitAfterPiece(parts[0], Join(parts[1..], [c]), c);
      assert [parts[0]] + parts[1..] == parts;
    }
  }

  lemma {:induction false} SplitNoSeparator(s: string, c: char)
    requires c !in s
    ensures Split(s, c) == [s]
  {
    if |s| > 0 {
      SplitNoSeparator(s[1..], c);
      assert [s[0]] + s[1..] == s;
    }
  }

  lemma {:induction false} SplitAfterPiece(p: string, t: string, c: char)
    requires c !in p
    ensures Split(p + [c] + t, c) == [p] + Split(t, c)
  {
    if |p| == 0 {
      assert (p + [c] + t)[1..] == t;
    } else {
      assert (p + [c] + t)[1..] == p[1..] + [c] + t;
      SplitAfterPiece(p[1..], t, c);
      assert [p[0]] + p[1..] == p;
    }
  }

  /** Joining all but the last piece, then the separator and the last piece,
      is joining all of them. */
  lemma {:induction false} JoinSnoc(parts: seq<string>, sep: string)
    requires |parts| >= 2
    ensures Join(parts, sep) == Join(parts[..|parts| - 1], sep) + sep + parts[|parts| - 1]
  {
    if |parts| > 2 {
      JoinSnoc(parts[1..], sep);
      assert parts[1..][..|parts| - 2] == parts[..|parts| - 1][1..];
    }
  }

  /** The piece before the first separator, and what follows it, are determined by the string. */
  lemma PieceUnique(a: string, b: string, a': string, b': string, c: char)
    requires c !in a && c !in a'
    requires a + [c] + b == a' + [c] + b'
    ensures a == a' && b == b'
  {
    SplitAfterPiece(a, b, c);
    SplitAfterPiece(a', b', c);
    assert ([a] + Split(b, c))[0] == a && ([a'] + Split(b', c))[0] == a';
    assert Split(b, c) == ([a] + Split(b, c))[1..];
    assert Split(b', c) == ([a'] + Split(b', c))[1..];
    JoinSplit(b, c);
    JoinSplit(b', c);
  }

  /** A split has one more piece than there are separators. */
  lemma {:induction false} SplitCount(s: string, c: char)
    ensures |Split(s, c)| == multiset(s)[c] + 1
  {
    if |s| > 0 {
      SplitCount(s[1..], c);
      assert s == [s[0]] + s[1..];
      assert multiset(s) == multiset([s[0]]) + multiset(s[1..]);
    }
  }

  /** Two separators make at least three pieces. */
  lemma TwoSeparators(s: string, c: char, a: string, b: string, x: string)
    requires s == a + [c] + b + [c] + x
    ensures |Split(s, c)| >= 3
  {
    SplitCount(s, c);
    assert multiset(s) == multiset(a) + multiset([c]) + multiset(b) + multiset([c]) + multiset(x);
  }

  /** A string made only of separators splits into empty pieces. */
  lemma {:induction false} SplitOnlySeparators(s: string, c: char)
    requires forall i :: 0 <= i < |s| ==> s[i] == c
    ensures forall i :: 0 <= i < |Split(s, c)| ==> Split(s, c)[i] == ""
  {
    if |s| > 0 {
      SplitOnlySeparators(s[1..], c);
    }
  }

  /** The index of the first `c` in `s`, if any. */
  function FirstIndex(s: string, c: char): (r: Option<nat>)
    ensures r.None? <==> c !in s
    ensures r.Some? ==> r.value < |s| && s[r.value] == c && c !in s[..r.value]
  {
    if |s| == 0 then None
    else if s[0] == c then Some(0)
    else match FirstIndex(s[1..], c)
      case None => None
      case Some(i) => assert s[..i + 1] == [s[0]] + s[1..][..i]; Some(i + 1)
  }

  /** `s.split(c, 1)`: the piece before the first `c` and the rest, or `[s]`. */
  function SplitOnce(s: string, c: char): (parts: seq<string>)
    ensures c !in s ==> parts == [s]
    ensures c in s ==> |parts| == 2 && c !in parts[0] && parts[0] + [c] + parts[1] == s
  {
    match FirstIndex(s, c)
    case None => [s]
    case Some(i) =>
      assert s[..i] + [c] + s[i + 1..] == s by {
        assert s == s[..i] + [s[i]] + s[i + 1..];
      }
      [s[..i], s[i + 1..]]
  }

  predicate StartsWith(s: string, prefix: string) {
    |prefix| <= |s| && s[..|prefix|] == prefix
  }

  predicate EndsWith(s: string, suffix: string) {
    |suffix| <= |s| && s[|s| - |suffix|..] == suffix
  }

  /** `sub in s` for strings. */
  predicate IsInfix(sub: string, s: string)
    decreases |s|
  {
    StartsWith(s, sub) || (|s| > 0 && IsInfix(sub, s[1..]))
  }

  lemma {:induction false} InfixOfConcat(sub: string, a: string, b: string)
    ensures IsInfix(sub, b) ==> IsInfix(sub, a + b)
    decreases |a|
  {
    if |a| > 0 {
      assert (a + b)[1..] == a[1..] + b;
      InfixOfConcat(sub, a[1..], b);
    } else {
      assert a + b == b;
    }
  }

  lemma InfixOfPrefix(sub: string, s: string)
    requires StartsWith(s, sub)
    ensures IsInfix(sub, s)
  {
  }

  /** `s.replace(pat, '')`: removes the occurrences of `pat` found scanning left to right. */
  function RemoveAll(s: string, pat: string): string
    requires |pat| > 0
    decreases |s|
  {
    if |s| == 0 then ""
    else if StartsWith(s, pat) then RemoveAll(s[|pat|..], pat)
    else [s[0]] + RemoveAll(s[1..], pat)
  }

  /** Removing a single character leaves none of it. */
  lemma {:induction false} RemoveAllChar(s: string, c: char)
    ensures c !in RemoveAll(s, [c])
    ensures forall d :: d in RemoveAll(s, [c]) <==> d in s && d != c
  {
    if |s| > 0 {
      RemoveAllChar(s[1..], c);
      assert StartsWith(s, [c]) <==> s[0] == c;
      assert s == [s[0]] + s[1..];
    }
  }

  /** After `replace('--', '')` no two dashes are adjacent: a dash is kept only
      when the character after it is not a dash. */
  lemma {:induction false} RemoveDoubleDash(s: string)
    ensures !IsInfix("--", RemoveAll(s, "--"))
    ensures |RemoveAll(s, "--")| > 0 && RemoveAll(s, "--")[0] == '-' ==> |s| > 0 && s[0] == '-'
    decreases |s|
  {
    if |s| > 0 {
      if StartsWith(s, "--") {
        RemoveDoubleDash(s[2..]);
        var r := RemoveAll(s[2..], "--");
        if |r| > 0 && r[0] == '-' {
          assert s[2..][0] == '-';
        }
      } else {
        RemoveDoubleDash(s[1..]);
        var r := [s[0]] + RemoveAll(s[1..], "--");
        assert r[1..] == RemoveAll(s[1..], "--");
        assert !StartsWith(r, "--");
      }
    }
  }

  /** Removing a character that does not occur changes nothing. */
  lemma RemoveAbsentChar(s: string, c: char)
    requires c !in s
    ensures RemoveAll(s, [c]) == s
    decreases |s|
  {
    if |s| > 0 {
      RemoveAbsentChar(s[1..], c);
      assert s == [s[0]] + s[1..];
    }
  }

  /** Removing a pattern that does not occur changes nothing. */
  lemma {:induction false} RemoveAbsent(s: string, pat: string)
    requires |pat| > 0 && !IsInfix(pat, s)
    ensures RemoveAll(s, pat) == s
    decreases |s|
  {
    if |s| > 0 {
      RemoveAbsent(s[1..], pat);
      assert s == [s[0]] + s[1..];
    }
  }

  /** A character appended to a string without it is all that removing it takes away. */
  lemma {:induction false} RemoveTrailing(s: string, c: char)
    requires c !in s
    ensures RemoveAll(s + [c], [c]) == s
    decreases |s|
  {
    if |s| == 0 {
      assert RemoveAll([c], [c]) == RemoveAll([c][1..], [c]);
    } else {
      assert (s + [c])[1..] == s[1..] + [c];
      assert s[0] != c && (s + [c])[..1] == [s[0]];
      RemoveTrailing(s[1..], c);
      assert s == [s[0]] + s[1..];
    }
  }

  /** A string lacking one of the characters of `sub` does not contain `sub`. */
  lemma {:induction false} MissingCharNotInfix(sub: string, s: string, k: nat)
    requires k < |sub| && sub[k] !in s
    ensures !IsInfix(sub, s)
    decreases |s|
  {
    if |sub| <= |s| {
      assert s[..|sub|][k] == s[k];
    }
    if |s| > 0 {
      MissingCharNotInfix(sub, s[1..], k);
    }
  }

  /** ASCII `str.upper()`. */
  function Upper(s: string): (r: string)
    ensures |r| == |s|
    ensures forall i :: 0 <= i < |s| ==> r[i] == UpperChar(s[i])
  {
    seq(|s|, i requires 0 <= i < |s| => UpperChar(s[i]))
  }

  function UpperChar(ch: char): char {
    if 'a' <= ch <= 'z' then (ch as int - 32) as char else ch
  }

  function DigitChar(d: nat): char
    requires d < 10
  {
    ('0' as int + d) as char
  }

  predicate IsDigit(ch: char) {
    '0' <= ch <= '9'
  }

  /** `str(n)` for a natural number. */
  function Decimal(n: nat): (r: string)
    ensures |r| >= 1
    ensures forall i :: 0 <= i < |r| ==> IsDigit(r[i])
    decreases n
  {
    if n < 10 then [DigitChar(n)] else Decimal(n / 10) + [DigitChar(n % 10)]
  }

  /** `int(s)` on a string of decimal digits; None where Python raises ValueError. */
  function ParseNat(s: string): (r: Option<nat>)
    ensures r.Some? <==> |s| > 0 && forall i :: 0 <= i < |s| ==> IsDigit(s[i])
  {
    if |s| == 0 then None
    else if !IsDigit(s[|s| - 1]) then None
    else if |s| == 1 then Some(s[0] as int - '0' as int)
    else match ParseNat(s[..|s| - 1])
      case None => None
      case Some(v) => Some(v * 10 + (s[|s| - 1] as int - '0' as int))
  }

  /** Parsing the decimal spelling of `n` gives `n` back. */
  lemma {:induction false} ParseDecimal(n: nat)
    ensures ParseNat(Decimal(n)) == Some(n)
    decreases n
  {
    if n >= 10 {
      ParseDecimal(n / 10);
      var d := Decimal(n);
      assert d[..|d| - 1] == Decimal(n / 10);
    }
  }

  /** `int(s)`: an optional sign, then decimal digits. */
  function ParseInt(s: string): (r: Option<int>)
    ensures ParseNat(s).Some? ==> r == Some(ParseNat(s).value as int)
  {
    var signed := |s| > 0 && (s[0] == '-' || s[0] == '+');
    var digits := if signed then s[1..] else s;
    var magnitude := ParseNat(digits);
    if magnitude.None? then None
    else if signed && s[0] == '-' then Some(0 - magnitude.value)
    else Some(magnitude.value as int)
  }

  /** `os.path.join(a, b)` on POSIX: an absolute `b` replaces `a`; otherwise
      a '/' goes between them unless `a` is empty or already ends with one. */
  function PathJoin(a: string, b: string): (r: string)
    ensures |b| <= |r| && r[|r| - |b|..] == b
    ensures (|b| == 0 || b[0] != '/') ==> |a| <= |r| && r[..|a|] == a
    ensures (|b| == 0 || b[0] != '/') ==> |r| <= |a| + 1 + |b|
  {
    if |b| > 0 && b[0] == '/' then b
    else if a == "" || a[|a| - 1] == '/' then a + b
    else a + "/" + b
  }

  /** `str(i)` for an integer: a minus sign before the digits of a negative one. */
  function IntText(i: int): (r: string)
    ensures |r| >= 1
  {
    if i < 0 then "-" + Decimal(-i) else Decimal(i)
  }

  /** `int(str(i)) == i`. */
  lemma ParseIntText(i: int)
    ensures ParseInt(IntText(i)) == Some(i)
  {
    var s := IntText(i);
    if i < 0 {
      assert s[1..] == Decimal(-i);
      ParseDecimal(-i);
    } else {
      assert IsDigit(s[0]);
      ParseDecimal(i);
    }
  }

}
