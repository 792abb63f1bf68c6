/** `ImportPathResolver.getImportPath`: the module specifier one generated
    file uses to import another.

    Both file names are first placed on disk by the file writer; that
    lookup reads the file system, so here it is a parameter `place` that
    maps a file name to its absolute path, given as its list of segments
    (`/out/sub/b.ts` is `["out", "sub", "b.ts"]`).  The specifier is the
    POSIX relative path from the importing file's directory to the
    imported file, with back-slashes turned into slashes, one trailing
    `.ts` removed, and `./` put in front unless it already starts with a
    dot. */
module ImportPath {
  import opened Common

  /** An absolute path as its segments below the root. */
  type Segments = seq<string>

  /** A normalised segment: non-empty, no slash, not `.` or `..`. */
  predicate PlainSegment(s: string)
  {
    s != "" && s != "." && s != ".." && '/' !in s
  }

  predicate Normalised(p: Segments)
  {
    forall i :: 0 <= i < |p| ==> PlainSegment(p[i])
  }

  /** `path.dirname`: the root is its own directory. */
  function Dirname(p: Segments): (d: Segments)
    ensures p != [] ==> p == d + [p[|p| - 1]]
    ensures p == [] ==> d == []
  {
    if p == [] then [] else p[..|p| - 1]
  }

  /** Length of the longest common leading run of segments. */
  function CommonPrefix(a: Segments, b: Segments): (k: nat)
    ensures k <= |a| && k <= |b|
    ensures a[..k] == b[..k]
    ensures k < |a| && k < |b| ==> a[k] != b[k]
  {
    if a == [] || b == [] || a[0] != b[0] then 0
    else
      var k := CommonPrefix(a[1..], b[1..]);
      assert a[..k + 1] == [a[0]] + a[1..][..k];
      assert b[..k + 1] == [b[0]] + b[1..][..k];
      k + 1
  }

  function Ups(n: nat): (r: seq<string>)
    ensures |r| == n
    ensures forall i :: 0 <= i < n ==> r[i] == ".."
  {
    if n == 0 then [] else [".."] + Ups(n - 1)
  }

  /** `path.relative(from, to)` on normalised absolute paths, as segments:
      climb out of what `from` does not share with `to`, then descend. */
  function RelativeSegments(from: Segments, to: Segments): (r: seq<string>)
  {
    var k := CommonPrefix(from, to);
    Ups(|from| - k) + to[k..]
  }

  /** Following a relative path: `..` goes up (the root stays the root),
      anything else goes down. */
  function Resolve(dir: Segments, rel: seq<string>): Segments
    decreases |rel|
  {
    if rel == [] then dir
    else if rel[0] == ".." then Resolve(Dirname(dir), rel[1..])
    else Resolve(dir + [rel[0]], rel[1..])
  }

  lemma {:induction false} ResolveUps(dir: Segments, n: nat, rest: seq<string>)
    requires n <= |dir|
    ensures Resolve(dir, Ups(n) + rest) == Resolve(dir[..|dir| - n], rest)
  {
    if n > 0 {
      assert (Ups(n) + rest)[0] == "..";
      assert (Ups(n) + rest)[1..] == Ups(n - 1) + rest;
      ResolveUps(Dirname(dir), n - 1, rest);
      assert Dirname(dir)[..|Dirname(dir)| - (n - 1)] == dir[..|dir| - n];
    } else {
      assert Ups(0) + rest == rest;
      assert dir[..|dir|] == dir;
    }
  }

  lemma {:induction false} ResolveDown(dir: Segments, rest: seq<string>)
    requires Normalised(rest)
    ensures Resolve(dir, rest) == dir + rest
    decreases |rest|
  {
    if rest != [] {
      assert Normalised(rest[1..]);
      ResolveDown(dir + [rest[0]], rest[1..]);
      assert dir + [rest[0]] + rest[1..] == dir + rest;
    }
  }

  /** The relative path leads back to its target: following it from the
      starting directory arrives at `to`. */
  lemma RelativeResolves(from: Segments, to: Segments)
    requires Normalised(to)
    ensures Resolve(from, RelativeSegments(from, to)) == to
  {
    var k := CommonPrefix(from, to);
    ResolveUps(from, |from| - k, to[k..]);
    assert from[..|from| - (|from| - k)] == from[..k];
    assert Normalised(to[k..]);
    ResolveDown(from[..k], to[k..]);
    assert to[..k] + to[k..] == to;
  }

  /** The relative path climbs only as far as it must: never into the
      shared ancestor, and never at all when `to` lies below `from`. */
  lemma RelativeBelow(from: Segments, to: Segments)
    requires |from| <= |to| && to[..|from|] == from
    ensures RelativeSegments(from, to) == to[|from|..]
  {
    assert Ups(0) + to[|from|..] == to[|from|..];
  }

  /** `path.relative` as a string. */
  function Relative(from: Segments, to: Segments): string
  {
    Join(RelativeSegments(from, to), "/")
  }

  /** `getImportPath(fromFilename, toFilename)`. */
  function GetImportPath(place: string -> Segments, fromFilename: string, toFilename: string): (r: string)
    ensures r != [] && r[0] == '.'
    ensures var rel := StripSuffix(ReplaceChar(Relative(Dirname(place(fromFilename)), place(toFilename)), '\\', '/'), ".ts");
            (StartsWith(rel, ".") ==> r == rel) && (!StartsWith(rel, ".") ==> r == "./" + rel)
  {
    var rel := StripSuffix(ReplaceChar(Relative(Dirname(place(fromFilename)), place(toFilename)), '\\', '/'), ".ts");
    if StartsWith(rel, ".") then rel else "./" + rel
  }

  /** A target in the importing file's directory or below it is imported
      as `./` followed by its path from there, without `.ts`. */
  lemma ImportBelow(place: string -> Segments, fromFilename: string, toFilename: string)
    requires place(fromFilename) != []
    requires var d := Dirname(place(fromFilename));
             |d| < |place(toFilename)| && place(toFilename)[..|d|] == d
    requires var rest := place(toFilename)[|Dirname(place(fromFilename))|..];
             && (forall i :: 0 <= i < |rest| ==> rest[i] != [] && '\\' !in rest[i])
             && rest[0][0] != '.'
    ensures var rest := place(toFilename)[|Dirname(place(fromFilename))|..];
            GetImportPath(place, fromFilename, toFilename) == "./" + StripSuffix(Join(rest, "/"), ".ts")
  {
    var d := Dirname(place(fromFilename));
    var to := place(toFilename);
    var rest := to[|d|..];
    RelativeBelow(d, to);
    NoBackslashJoin(rest);
    var j := Join(rest, "/");
    JoinFirst(rest, "/");
    assert j[0] == rest[0][0];
    StripSuffixFirst(j, ".ts");
  }

  lemma {:induction false} NoBackslashJoin(ws: seq<string>)
    requires forall i :: 0 <= i < |ws| ==> '\\' !in ws[i]
    ensures ReplaceChar(Join(ws, "/"), '\\', '/') == Join(ws, "/")
  {
    JoinHasNo(ws, "/", '\\');
  }


  /** Removing `.ts` from a string that does not start with a dot leaves
      one that does not start with a dot (possibly empty). */
  lemma StripSuffixFirst(s: string, suffix: string)
    requires s != [] && s[0] != '.'
    ensures !StartsWith(StripSuffix(s, suffix), ".")
  {
  }

  /** `out/a.ts` importing `out/sub/b.ts` writes `./sub/b`. */
  lemma SubdirectoryExample(place: string -> Segments)
    requires place("a.ts") == ["out", "a.ts"]
    requires place("b.ts") == ["out", "sub", "b.ts"]
    ensures GetImportPath(place, "a.ts", "b.ts") == "./sub/b"
  {
    var to := ["out", "sub", "b.ts"];
    assert Dirname(["out", "a.ts"]) == ["out"];
    assert to[..1] == ["out"];
    ImportBelow(place, "a.ts", "b.ts");
    assert to[1..] == ["sub", "b.ts"];
    SubdirectoryText();
  }

  lemma SubdirectoryText()
    ensures "./" + StripSuffix(Join(["sub", "b.ts"], "/"), ".ts") == "./sub/b"
  {
    JoinCons("sub", ["b.ts"], "/");
    SubdirectorySuffix();
    StripAppended("sub/b", ".ts");
  }

  lemma SubdirectorySuffix()
    ensures "sub" + "/" + Join(["b.ts"], "/") == "sub/b" + ".ts"
  {
  }

  /** A sibling directory is reached through `..`, and the dot already
      there means no `./` is added: `out/x/a.ts` importing `out/y/b.ts`
      writes `../y/b`. */
  lemma SiblingExample(place: string -> Segments)
    requires place("a.ts") == ["out", "x", "a.ts"]
    requires place("b.ts") == ["out", "y", "b.ts"]
    ensures GetImportPath(place, "a.ts", "b.ts") == "../y/b"
  {
    SiblingRelative();
    SiblingText();
  }

  lemma SiblingText()
    ensures StripSuffix(ReplaceChar("../y/b.ts", '\\', '/'), ".ts") == "../y/b"
  {
    SiblingNoBackslash();
    SiblingSuffix();
    StripAppended("../y/b", ".ts");
  }

  lemma SiblingNoBackslash()
    ensures ReplaceChar("../y/b.ts", '\\', '/') == "../y/b.ts"
  {
    var p := "../y/b.ts";
    assert forall i :: 0 <= i < |p| ==> p[i] != '\\';
    ReplaceAbsent(p, '\\', '/');
  }

  lemma SiblingSuffix()
    ensures "../y/b.ts" == "../y/b" + ".ts"
  {
  }

  lemma SiblingRelative()
    ensures Relative(Dirname(["out", "x", "a.ts"]), ["out", "y", "b.ts"]) == "../y/b.ts"
  {
    var from := ["out", "x"];
    var to := ["out", "y", "b.ts"];
    assert Dirname(["out", "x", "a.ts"]) == from;
    assert CommonPrefix(from, to) == 1 by {
      assert CommonPrefix(from[1..], to[1..]) == 0;
    }
    assert RelativeSegments(from, to) == ["..", "y", "b.ts"] by {
      assert to[1..] == ["y", "b.ts"];
      assert Ups(1) == [".."];
    }
    assert Join(["..", "y", "b.ts"], "/") == "../y/b.ts";
  }
}
