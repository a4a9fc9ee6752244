/** POSIX path handling as the handlers use it: `path.join` from an absolute
    first argument, `path.basename` and `path.extname`. A joined path is kept
    as its list of segments; the string `path.join` prints is `/` followed by
    the segments separated by `/`. */
module Paths {
  import opened JsText
  import opened Seqs

  predicate NonEmpty(s: string)
  {
    s != ""
  }

  /** A path string whose last character is a slash. `path.join` keeps that
      slash, and the file system refuses to open such a path as a file. */
  predicate EndsInSlash(p: string)
  {
    p != "" && p[|p| - 1] == '/'
  }

  /** A segment `path.join` keeps as it is. */
  predicate Plain(seg: string)
  {
    seg != "" && '/' !in seg && seg != "." && seg != ".."
  }

  predicate AllPlain(segs: seq<string>)
  {
    forall i :: 0 <= i < |segs| ==> Plain(segs[i])
  }

  /** The non-empty pieces between slashes: repeated, leading and trailing
      slashes do not make segments. */
  function Segments(p: string): (r: seq<string>)
    ensures forall x :: x in r ==> x != "" && '/' !in x
  {
    var pieces := Split(p, '/');
    FilterMembers(pieces, NonEmpty);
    Filter(pieces, NonEmpty)
  }

  /** One step of normalisation: `.` stays put, `..` goes up (never above the
      root), anything else goes down. */
  function Step(stack: seq<string>, seg: string): seq<string>
  {
    if seg == "." then stack
    else if seg == ".." then (if stack == [] then [] else stack[..|stack| - 1])
    else stack + [seg]
  }

  /** Normalising `segs` below the directory `stack`. */
  function ResolveOnto(stack: seq<string>, segs: seq<string>): seq<string>
    decreases |segs|
  {
    if segs == [] then stack else ResolveOnto(Step(stack, segs[0]), segs[1..])
  }

  /** The normalised form of an absolute path. */
  function Resolve(segs: seq<string>): seq<string>
  {
    ResolveOnto([], segs)
  }

  /** `path.join` of an absolute first part and further parts. */
  function PathJoin(parts: seq<string>): seq<string>
  {
    Resolve(Segments(JoinWith(parts, '/')))
  }

  /** The string form of a normalised absolute path. */
  function Render(segs: seq<string>): string
  {
    "/" + JoinWith(segs, '/')
  }

  lemma {:induction false} ResolveOntoAppend(stack: seq<string>, a: seq<string>, b: seq<string>)
    ensures ResolveOnto(stack, a + b) == ResolveOnto(ResolveOnto(stack, a), b)
    decreases |a|
  {
    if a == [] {
      assert a + b == b;
    } else {
      assert (a + b)[0] == a[0] && (a + b)[1..] == a[1..] + b;
      ResolveOntoAppend(Step(stack, a[0]), a[1..], b);
    }
  }

  /** Plain segments are simply appended. */
  lemma {:induction false} ResolveOntoPlain(stack: seq<string>, segs: seq<string>)
    requires AllPlain(segs)
    ensures ResolveOnto(stack, segs) == stack + segs
    decreases |segs|
  {
    if segs != [] {
      assert Plain(segs[0]);
      ResolveOntoPlain(stack + [segs[0]], segs[1..]);
      assert stack + [segs[0]] + segs[1..] == stack + segs;
    }
  }

  /** Normalising segments that are non-empty and slash-free leaves only plain
      segments. */
  lemma {:induction false} ResolveOntoMakesPlain(stack: seq<string>, segs: seq<string>)
    requires AllPlain(stack)
    requires forall x :: x in segs ==> x != "" && '/' !in x
    ensures AllPlain(ResolveOnto(stack, segs))
    decreases |segs|
  {
    if segs != [] {
      assert segs[0] in segs;
      var next := Step(stack, segs[0]);
      assert AllPlain(next) by {
        if segs[0] != "." && segs[0] != ".." {
          assert next == stack + [segs[0]];
        }
      }
      assert forall x :: x in segs[1..] ==> x in segs;
      ResolveOntoMakesPlain(next, segs[1..]);
    }
  }

  /** Normalising in two goes is normalising once. */
  lemma ResolveResolved(a: seq<string>, b: seq<string>)
    requires forall x :: x in a ==> x != "" && '/' !in x
    ensures Resolve(Resolve(a) + b) == Resolve(a + b)
  {
    ResolveOntoMakesPlain([], a);
    ResolveOntoPlain([], Resolve(a));
    assert [] + Resolve(a) == Resolve(a);
    ResolveOntoAppend([], Resolve(a), b);
    ResolveOntoAppend([], a, b);
  }

  /** A slash between two texts separates their segments. */
  lemma SegmentsConcat(a: string, b: string)
    ensures Segments(a + "/" + b) == Segments(a) + Segments(b)
  {
    assert a + "/" + b == a + ['/'] + b;
    SplitConcat(a, b, '/');
    FilterConcat(Split(a, '/'), Split(b, '/'), NonEmpty);
  }

  /** A single non-empty name without slashes is one segment. */
  lemma SegmentsOfName(name: string)
    requires name != "" && '/' !in name
    ensures Segments(name) == [name]
  {
    SplitNoSeparator(name, '/');
  }

  /** Printing a normalised path and splitting it again gives it back. */
  lemma SegmentsOfRender(segs: seq<string>)
    requires AllPlain(segs)
    ensures Segments(Render(segs)) == segs
  {
    var j := JoinWith(segs, '/');
    assert Render(segs) == [] + ['/'] + j;
    SplitConcat([], j, '/');
    assert Split([], '/') == [""];
    if segs == [] {
      assert Split(j, '/') == [""];
      assert Filter([""], NonEmpty) == [];
    } else {
      SplitJoin(segs, '/');
      FilterConcat([""], segs, NonEmpty);
      FilterAll(segs, NonEmpty);
    }
  }

  lemma {:induction false} JoinWithSnoc(parts: seq<string>, name: string)
    requires |parts| >= 1
    ensures JoinWith(parts + [name], '/') == JoinWith(parts, '/') + "/" + name
  {
    if |parts| == 1 {
      assert parts + [name] == [parts[0], name];
    } else {
      assert (parts + [name])[1..] == parts[1..] + [name];
      JoinWithSnoc(parts[1..], name);
    }
  }

  /** `path.join(path.join(...parts), name)` is `path.join(...parts, name)`. */
  lemma JoinThenJoin(parts: seq<string>, name: string)
    requires |parts| >= 1
    ensures PathJoin([Render(PathJoin(parts)), name]) == PathJoin(parts + [name])
  {
    var s := Segments(JoinWith(parts, '/'));
    var dir := PathJoin(parts);
    ResolveOntoMakesPlain([], s);
    SegmentsOfRender(dir);
    assert JoinWith([Render(dir), name], '/') == Render(dir) + "/" + name;
    SegmentsConcat(Render(dir), name);
    JoinWithSnoc(parts, name);
    SegmentsConcat(JoinWith(parts, '/'), name);
    ResolveResolved(s, Segments(name));
  }

  /** Joining one more slash-free name onto a path takes one normalisation
      step from it; an empty name adds nothing. */
  lemma JoinName(parts: seq<string>, name: string)
    requires |parts| >= 1 && '/' !in name
    ensures PathJoin(parts + [name]) == if name == "" then PathJoin(parts) else Step(PathJoin(parts), name)
  {
    var s := Segments(JoinWith(parts, '/'));
    JoinWithSnoc(parts, name);
    SegmentsConcat(JoinWith(parts, '/'), name);
    if name == "" {
      assert Segments(name) == [];
      assert s + [] == s;
    } else {
      SegmentsOfName(name);
      ResolveOntoAppend([], s, [name]);
      assert ResolveOnto(Resolve(s), [name]) == ResolveOnto(Step(Resolve(s), name), []);
    }
  }

  /** Joining a plain name onto a path appends it as one more segment. */
  lemma JoinPlain(parts: seq<string>, name: string)
    requires |parts| >= 1 && Plain(name)
    ensures PathJoin(parts + [name]) == PathJoin(parts) + [name]
  {
    JoinName(parts, name);
  }

  /** A directory, a plain name below it, then one more slash-free name: the
      result stays below the directory (the name appended, or nothing when
      the name is empty or `.`) except for `..`, which returns to the
      directory itself. */
  lemma JoinTwoNames(parts: seq<string>, dir: string, name: string)
    requires |parts| >= 1 && Plain(dir) && '/' !in name
    ensures PathJoin(parts + [dir]) == PathJoin(parts) + [dir]
    ensures PathJoin(parts + [dir] + [name]) ==
      if Plain(name) then PathJoin(parts) + [dir] + [name]
      else if name == ".." then PathJoin(parts)
      else PathJoin(parts) + [dir]
  {
    JoinPlain(parts, dir);
    JoinName(parts + [dir], name);
    var d := PathJoin(parts) + [dir];
    assert d[..|d| - 1] == PathJoin(parts);
  }

  /** `/dir/rest` as a segment list: `dir` followed by the segments of `rest`. */
  lemma SegmentsOfRooted(dir: string, rest: string)
    requires dir != "" && '/' !in dir
    ensures Segments("/" + dir + "/" + rest) == [dir] + Segments(rest)
  {
    assert "/" + dir + "/" + rest == "" + "/" + (dir + "/" + rest);
    SegmentsConcat("", dir + "/" + rest);
    assert Segments("") == [];
    SegmentsConcat(dir, rest);
    SegmentsOfName(dir);
  }

  /** Joining a root, a plain directory and a rooted URL path `/d/a/b` reaches
      the same place as joining the root, the directory, `d`, `a` and `b`:
      the URL's leading slash adds nothing. */
  lemma JoinRootedUrl(root: string, pub: string, dir: string, a: string, b: string)
    requires pub != "" && '/' !in pub && dir != "" && '/' !in dir
    ensures PathJoin([root, pub, "/" + dir + "/" + a + "/" + b]) == PathJoin([root, pub, dir, a, b])
  {
    var url := "/" + dir + "/" + a + "/" + b;
    assert JoinWith([root, pub, url], '/') == root + "/" + (pub + "/" + url) by {
      assert [root, pub, url][1..] == [pub, url];
      assert [pub, url][1..] == [url];
      assert JoinWith([url], '/') == url;
      assert JoinWith([pub, url], '/') == pub + "/" + url;
    }
    assert JoinWith([root, pub, dir, a, b], '/') == root + "/" + (pub + "/" + (dir + "/" + (a + "/" + b))) by {
      assert [root, pub, dir, a, b][1..] == [pub, dir, a, b];
      assert [pub, dir, a, b][1..] == [dir, a, b];
      assert [dir, a, b][1..] == [a, b];
      assert [a, b][1..] == [b];
      assert JoinWith([b], '/') == b;
      assert JoinWith([a, b], '/') == a + "/" + b;
      assert JoinWith([dir, a, b], '/') == dir + "/" + (a + "/" + b);
      assert JoinWith([pub, dir, a, b], '/') == pub + "/" + (dir + "/" + (a + "/" + b));
    }
    SegmentsConcat(root, pub + "/" + url);
    SegmentsConcat(pub, url);
    assert url == "/" + dir + "/" + (a + "/" + b);
    SegmentsOfRooted(dir, a + "/" + b);
    SegmentsConcat(root, pub + "/" + (dir + "/" + (a + "/" + b)));
    SegmentsConcat(pub, dir + "/" + (a + "/" + b));
    SegmentsConcat(dir, a + "/" + b);
    SegmentsOfName(pub);
    SegmentsOfName(dir);
  }

  // ---------------------------------------------------------------------------
  // basename and extname
  // ---------------------------------------------------------------------------

  /** `p` without its trailing slashes. */
  function StripTrailingSlashes(p: string): (r: string)
    ensures |r| <= |p| && r == p[..|r|]
    ensures r == [] || r[|r| - 1] != '/'
    ensures forall i :: |r| <= i < |p| ==> p[i] == '/'
  {
    if p != [] && p[|p| - 1] == '/' then StripTrailingSlashes(p[..|p| - 1]) else p
  }

  /** `path.basename`: the last segment, trailing slashes ignored. */
  function Basename(p: string): (r: string)
    ensures '/' !in r
  {
    AfterLast(StripTrailingSlashes(p), '/')
  }

  /** A name without slashes is its own basename. */
  lemma BasenameOfName(name: string)
    requires '/' !in name
    ensures Basename(name) == name
  {
    if name != [] {
      assert name[|name| - 1] in name;
    }
    assert StripTrailingSlashes(name) == name;
    AfterLastAbsent(name, '/');
  }

  /** The last segment of a path ending in a slash-free name is that name,
      whatever directories precede it. */
  lemma BasenameOfJoin(dir: string, name: string)
    requires name != "" && '/' !in name
    ensures Basename(dir + "/" + name) == name
  {
    var p := dir + "/" + name;
    assert p[|p| - 1] == name[|name| - 1];
    assert StripTrailingSlashes(p) == p;
    AfterLastOfJoin(dir, '/', name);
  }

  /** The extension of a basename: from its last dot to its end, except that
      a name with no dot, a name whose only dot is its first character
      (`.bashrc`), and `..` have none. */
  function NameExtension(b: string): (r: string)
    ensures |r| <= |b| && r == b[|b| - |r|..]
    ensures r == [] || (r[0] == '.' && '.' !in r[1..])
    ensures '.' !in b || b == ".." || (b[0] == '.' && '.' !in b[1..]) ==> r == []
    ensures r == [] && '.' in b && b != ".." ==> b[0] == '.' && '.' !in b[1..]
  {
    var e := AfterLast(b, '.');
    if |e| == |b| then
      assert e == b;
      []
    else if |e| == |b| - 1 then
      assert b[1..] == e && b[0] == '.';
      []
    else if b == ".." then []
    else
      var k := |b| - |e| - 1;
      assert b[k..] == "." + e;
      assert b[k] == '.' && b[k] in b[1..];
      "." + e
  }

  /** `path.extname`: the extension of the basename. */
  function Extname(p: string): (r: string)
    ensures '/' !in r
    ensures r == NameExtension(Basename(p))
  {
    NameExtension(Basename(p))
  }
}
