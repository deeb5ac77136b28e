/** Workspace-relative paths: `WorkspacePath` and its normal form. */
module Paths {
  import opened Common

  const SLASH: byte := 47
  const DOT: byte := 46

  /** One component of a path, as bytes. */
  type Name = Bytes

  /** A relative path: its components. */
  type Path = seq<Name>

  /** A component that names an entry of a directory. */
  predicate IsName(n: Name) {
    n != [] && SLASH !in n && n != [DOT] && n != [DOT, DOT]
  }

  predicate IsNormal(p: Path) {
    forall i :: 0 <= i < |p| ==> IsName(p[i])
  }

  /** One path equals the other or is above it. */
  predicate Clash(p: Path, q: Path) {
    p <= q || q <= p
  }

  /** The pieces of `s` between slashes. */
  function Split(s: Bytes): (pieces: seq<Name>)
    ensures |pieces| >= 1
    ensures forall i :: 0 <= i < |pieces| ==> SLASH !in pieces[i]
  {
    if s == [] then [[]]
    else
      var rest := Split(s[1..]);
      if s[0] == SLASH then [[]] + rest else [[s[0]] + rest[0]] + rest[1..]
  }

  /** Drops empty pieces and `.`, as `Path::components` does. */
  function Significant(pieces: seq<Name>): (parts: seq<Name>)
    ensures forall i :: 0 <= i < |parts| ==> parts[i] in pieces && parts[i] != [] && parts[i] != [DOT]
  {
    if pieces == [] then []
    else
      var n := |pieces| - 1;
      var front := Significant(pieces[..n]);
      assert pieces == pieces[..n] + [pieces[n]];
      if pieces[n] == [] || pieces[n] == [DOT] then front else front + [pieces[n]]
  }

  function Parts(raw: Bytes): (parts: seq<Name>) {
    Significant(Split(raw))
  }

  function Join(p: Path): (s: Bytes) {
    if p == [] then [] else if |p| == 1 then p[0] else p[0] + [SLASH] + Join(p[1..])
  }

  /** What `WorkspacePath::try_from` accepts, and the components it keeps. */
  function Parse(raw: Bytes): (r: Result<Path>)
    ensures r.Ok? ==> IsNormal(r.value)
  {
    if raw != [] && raw[0] == SLASH then Err
    else if [DOT, DOT] in Parts(raw) then Err
    else Ok(Parts(raw))
  }

  /** `WorkspacePath::try_from` */
  method TryFrom(raw: Bytes) returns (r: Result<Path>)
    ensures r == Parse(raw)
  {
    if raw != [] && raw[0] == SLASH {
      return Err;
    }
    var pieces := Split(raw);
    var parts := [];
    for i := 0 to |pieces|
      invariant parts == Significant(pieces[..i]) && [DOT, DOT] !in parts
    {
      assert pieces[..i + 1][..i] == pieces[..i];
      if pieces[i] == [] || pieces[i] == [DOT] {
      } else if pieces[i] == [DOT, DOT] {
        SignificantKeeps(pieces, i);
        return Err;
      } else {
        parts := parts + [pieces[i]];
      }
    }
    assert pieces[..|pieces|] == pieces;
    r := Ok(parts);
  }

  lemma {:induction false} SignificantKeeps(pieces: seq<Name>, i: nat)
    requires i < |pieces| && pieces[i] != [] && pieces[i] != [DOT]
    ensures pieces[i] in Significant(pieces)
  {
    if i == |pieces| - 1 {
    } else {
      SignificantKeeps(pieces[..|pieces| - 1], i);
    }
  }

  lemma {:induction false} SplitJoint(a: Bytes, b: Bytes)
    ensures Split(a + [SLASH] + b) == Split(a) + Split(b)
  {
    var s := a + [SLASH] + b;
    if a == [] {
      assert s[1..] == b;
    } else {
      assert s[1..] == a[1..] + [SLASH] + b;
      SplitJoint(a[1..], b);
    }
  }

  lemma {:induction false} SplitName(n: Name)
    requires SLASH !in n
    ensures Split(n) == [n]
  {
    if n == [] {
    } else {
      SplitName(n[1..]);
      assert n == [n[0]] + n[1..];
    }
  }

  lemma {:induction false} SplitJoin(p: Path)
    requires p != [] && forall i :: 0 <= i < |p| ==> SLASH !in p[i]
    ensures Split(Join(p)) == p
  {
    SplitName(p[0]);
    if |p| > 1 {
      SplitJoin(p[1..]);
      SplitJoint(p[0], Join(p[1..]));
      assert [p[0]] + p[1..] == p;
    }
  }

  lemma {:induction false} SignificantAll(p: Path)
    requires IsNormal(p)
    ensures Significant(p) == p
  {
    if p == [] {
    } else {
      SignificantAll(p[..|p| - 1]);
      assert p == p[..|p| - 1] + [p[|p| - 1]];
    }
  }

  lemma {:induction false} SignificantAppend(a: seq<Name>, b: seq<Name>)
    ensures Significant(a + b) == Significant(a) + Significant(b)
  {
    if b == [] {
      assert a + b == a;
    } else {
      var n := |b| - 1;
      SignificantAppend(a, b[..n]);
      assert (a + b)[..|a| + n] == a + b[..n];
    }
  }

  /** Writing a normal path and reading it back gives the same components. */
  lemma ParseJoin(p: Path)
    requires IsNormal(p)
    ensures Parse(Join(p)) == Ok(p)
  {
    if p == [] {
      assert Parts([]) == [];
    } else {
      assert Join(p)[0] == p[0][0];
      SplitJoin(p);
      SignificantAll(p);
    }
  }

  /** Two normal paths with the same text are the same path. */
  lemma JoinInjective(p: Path, q: Path)
    requires IsNormal(p) && IsNormal(q) && Join(p) == Join(q)
    ensures p == q
  {
    ParseJoin(p);
    ParseJoin(q);
  }

  /** Normalization is idempotent: the text it keeps is read as itself. */
  lemma ParseIdempotent(raw: Bytes)
    requires Parse(raw).Ok?
    ensures Parse(Join(Parse(raw).value)) == Parse(raw)
  {
    ParseJoin(Parse(raw).value);
  }

  lemma JoinGrow(c: byte, pieces: seq<Name>)
    requires pieces != []
    ensures Join([[c] + pieces[0]] + pieces[1..]) == [c] + Join(pieces)
  {
    var grown := [[c] + pieces[0]] + pieces[1..];
    assert grown[1..] == pieces[1..];
  }

  /** The pieces joined with slashes are the string again. */
  lemma {:induction false} JoinSplit(s: Bytes)
    ensures Join(Split(s)) == s
  {
    if s == [] {
    } else {
      var rest := Split(s[1..]);
      JoinSplit(s[1..]);
      if s[0] == SLASH {
        assert ([[]] + rest)[1..] == rest;
      } else {
        JoinGrow(s[0], rest);
      }
      assert s == [s[0]] + s[1..];
    }
  }

  /** A path is refused exactly when it starts with a slash or has `..` between slashes. */
  lemma ParseErrIff(raw: Bytes)
    ensures Parse(raw).Err? <==> (raw != [] && raw[0] == SLASH) || [DOT, DOT] in Split(raw)
  {
    hide Split, Significant;
    var pieces := Split(raw);
    if [DOT, DOT] in pieces {
      var i :| 0 <= i < |pieces| && pieces[i] == [DOT, DOT];
      SignificantKeeps(pieces, i);
    }
  }

  /** An accepted path has no component exactly when nothing but `.` stands between its slashes. */
  lemma ParseEmptyIff(raw: Bytes)
    requires Parse(raw).Ok?
    ensures Parse(raw).value == [] <==>
            forall i :: 0 <= i < |Split(raw)| ==> Split(raw)[i] == [] || Split(raw)[i] == [DOT]
  {
    hide Split, Significant;
    var pieces := Split(raw);
    forall i | 0 <= i < |pieces| && pieces[i] != [] && pieces[i] != [DOT] ensures pieces[i] in Significant(pieces) {
      SignificantKeeps(pieces, i);
    }
    if Significant(pieces) != [] {
      var i :| 0 <= i < |pieces| && pieces[i] == Significant(pieces)[0];
      assert Split(raw)[i] != [] && Split(raw)[i] != [DOT];
    }
  }

  /** `WorkspacePath::from_package_relative` */
  function FromPackageRelative(package: Bytes, src: Bytes): (r: Result<Path>) {
    match Parse(src)
    case Err => Err
    case Ok(s) => Parse(if package == [] then Join(s) else package + [SLASH] + Join(s))
  }

  /** A source joins its package exactly when both are valid, and then stays below it. */
  lemma PackageRelativeIff(package: Bytes, src: Bytes)
    ensures FromPackageRelative(package, src) ==
            if Parse(package).Ok? && Parse(src).Ok?
            then Ok(Parse(package).value + Parse(src).value) else Err
  {
    assert Parse([]) == Ok([]) by {
      assert Parts([]) == [];
    }
    if Parse(src).Ok? {
      var s := Parse(src).value;
      ParseJoin(s);
      if package == [] {
        assert [] + s == s;
      } else {
        var raw := package + [SLASH] + Join(s);
        assert raw[0] == package[0];
        SplitJoint(package, Join(s));
        SignificantAppend(Split(package), Split(Join(s)));
        assert Parts(raw) == Parts(package) + s;
      }
    }
  }
}
