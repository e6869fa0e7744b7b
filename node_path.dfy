/**
 * Node's POSIX `path` helpers that the ref rewriting calls: `path.join` (with
 * the normalisation it applies) and the `base` and `name` parts of
 * `path.parse`. A path is split on '/' into segments; normalising drops empty
 * and "." segments and lets ".." remove the segment before it.
 */
module NodePath {
  import opened Wrappers
  import opened JsStrings

  /** Index of the first `c` in `s`. */
  function FirstIndex(s: string, c: char): (i: nat)
    requires c in s
    ensures i < |s| && s[i] == c && c !in s[..i]
  {
    if s[0] == c then 0
    else
      var k := FirstIndex(s[1..], c);
      assert s[..k + 1] == [s[0]] + s[1..][..k];
      k + 1
  }

  /** `s.split('/')` */
  function Segments(s: string): (r: seq<string>)
    ensures |r| >= 1
    ensures forall i :: 0 <= i < |r| ==> '/' !in r[i]
    decreases |s|
  {
    if '/' in s then
      var i := FirstIndex(s, '/');
      [s[..i]] + Segments(s[i + 1..])
    else [s]
  }

  /** `segments.join('/')` */
  function JoinSegments(ss: seq<string>): string
  {
    if |ss| == 0 then ""
    else if |ss| == 1 then ss[0]
    else ss[0] + "/" + JoinSegments(ss[1..])
  }

  /** One step of normalisation: `segment` applied to the segments kept so far. */
  function Push(stack: seq<string>, segment: string, aboveRoot: bool): seq<string>
  {
    if segment == "" || segment == "." then stack
    else if segment == ".." then
      if |stack| > 0 && stack[|stack| - 1] != ".." then stack[..|stack| - 1]
      else if aboveRoot then stack + [".."]
      else stack
    else stack + [segment]
  }

  /** The segments kept after applying `segments` in order, starting from `stack`. */
  function ResolveFrom(stack: seq<string>, segments: seq<string>, aboveRoot: bool): seq<string>
    decreases |segments|
  {
    if segments == [] then stack
    else ResolveFrom(Push(stack, segments[0], aboveRoot), segments[1..], aboveRoot)
  }

  /**
   * Segments in normal form: none empty, none ".", none holding '/', and ".."
   * only in a leading run, which only a relative path may have.
   */
  predicate Canonical(ss: seq<string>, aboveRoot: bool) {
    && (forall i :: 0 <= i < |ss| ==> ss[i] != "" && ss[i] != "." && '/' !in ss[i])
    && (forall i, j :: 0 <= i < j < |ss| && ss[j] == ".." ==> ss[i] == "..")
    && (!aboveRoot ==> ".." !in ss)
  }

  /** `path.normalize(p)` */
  function Normalize(p: string): string
  {
    if p == "" then "."
    else
      var absolute := p[0] == '/';
      var trailing := p[|p| - 1] == '/';
      var body := JoinSegments(ResolveFrom([], Segments(p), !absolute));
      if body == "" then
        if absolute then "/" else if trailing then "./" else "."
      else
        (if absolute then "/" else "") + body + (if trailing then "/" else "")
  }

  /** The parts that are not empty, in order. */
  function NonEmpty(parts: seq<string>): (r: seq<string>)
    ensures forall i :: 0 <= i < |r| ==> r[i] != ""
    ensures |parts| > 0 && parts[|parts| - 1] != "" ==> |r| > 0 && r[|r| - 1] == parts[|parts| - 1]
  {
    if parts == [] then []
    else if parts[0] == "" then NonEmpty(parts[1..])
    else [parts[0]] + NonEmpty(parts[1..])
  }

  /** `path.join(...parts)` */
  function Join(parts: seq<string>): string
  {
    var kept := NonEmpty(parts);
    if kept == [] then "." else Normalize(JoinSegments(kept))
  }

  /** No two separators in a row. */
  ghost predicate NoDoubleSlash(s: string) {
    forall i, j :: 0 <= i < j < |s| && j == i + 1 ==> s[i] != '/' || s[j] != '/'
  }

  /** No two neighbouring characters are both slashes. */
  lemma NoDoubleSlashAt(s: string, i: nat)
    requires NoDoubleSlash(s) && i + 1 < |s|
    ensures !(s[i] == '/' && s[i + 1] == '/')
  {
  }

  /** `p` without its trailing separators. */
  function TrimTrailingSlashes(p: string): (q: string)
    ensures StartsWith(p, q)
    ensures q == "" || q[|q| - 1] != '/'
    ensures forall i :: |q| <= i < |p| ==> p[i] == '/'
  {
    if p != "" && p[|p| - 1] == '/' then TrimTrailingSlashes(p[..|p| - 1]) else p
  }

  /** Index just after the last separator of `q`, or 0 when it has none. */
  function AfterLastSlash(q: string): (k: nat)
    ensures k <= |q|
    ensures '/' !in q[k..]
    ensures k > 0 ==> q[k - 1] == '/'
  {
    if q == "" then 0
    else if q[|q| - 1] == '/' then |q|
    else
      var k := AfterLastSlash(q[..|q| - 1]);
      assert q[k..] == q[..|q| - 1][k..] + [q[|q| - 1]];
      k
  }

  /** Where the base of `p` starts. */
  function BaseStart(p: string): nat
  {
    AfterLastSlash(TrimTrailingSlashes(p))
  }

  /**
   * `path.parse(p).base`: the last segment, trailing separators ignored. It is
   * the text of `p` at BaseStart(p), holds no separator, has a separator (or
   * the start) before it and only separators after it, and is empty exactly
   * when `p` is nothing but separators.
   */
  function Base(p: string): (b: string)
    ensures '/' !in b
    ensures OccursAt(p, b, BaseStart(p))
    ensures BaseStart(p) == 0 || p[BaseStart(p) - 1] == '/'
    ensures forall i :: BaseStart(p) + |b| <= i < |p| ==> p[i] == '/'
    ensures b == "" <==> forall i :: 0 <= i < |p| ==> p[i] == '/'
  {
    var q := TrimTrailingSlashes(p);
    var k := AfterLastSlash(q);
    assert q == p[..|q|];
    q[k..]
  }

  /** Index of the last '.' in `b`. */
  function LastDot(b: string): (r: Option<nat>)
    ensures r.Some? ==> r.value < |b| && b[r.value] == '.' && '.' !in b[r.value + 1..]
    ensures r.None? ==> '.' !in b
  {
    if b == "" then None
    else if b[|b| - 1] == '.' then Some(|b| - 1)
    else
      var r := LastDot(b[..|b| - 1]);
      assert b == b[..|b| - 1] + [b[|b| - 1]];
      r
  }

  /**
   * Where the extension of base `b` starts: at its last '.', unless there is
   * none, the '.' opens the base (".bashrc") or the base is "..".
   */
  function ExtStart(b: string): (k: nat)
    ensures k <= |b|
  {
    match LastDot(b)
    case None => |b|
    case Some(d) => if d == 0 || b == ".." then |b| else d
  }

  /** `path.parse(p).name`: the base without its extension. */
  function Name(p: string): string
  {
    Base(p)[..ExtStart(Base(p))]
  }

  /** `path.parse(p).ext` */
  function Ext(p: string): string
  {
    Base(p)[ExtStart(Base(p))..]
  }

  /**
   * The base is the name followed by the extension; an extension is empty or
   * starts at the base's last dot and never takes the whole base.
   */
  lemma BaseIsNameThenExt(p: string)
    ensures Base(p) == Name(p) + Ext(p)
    ensures Ext(p) == "" || (Ext(p)[0] == '.' && '.' !in Ext(p)[1..] && Name(p) != "" && Base(p) != "..")
    ensures Ext(p) == "" <==> Name(p) == Base(p)
  {
    var b := Base(p);
    var k := ExtStart(b);
    if k < |b| {
      assert b[k..][1..] == b[k + 1..];
    }
  }

  /**
   * The name is the base up to its last '.', and the extension the rest,
   * unless that '.' opens the base or the base is ".."; then the name is the
   * whole base and the extension is empty.
   */
  lemma NameIsBaseBeforeLastDot(p: string)
    ensures var b := Base(p);
      if LastDot(b).Some? && LastDot(b).value > 0 && b != ".." then
        Name(p) == b[..LastDot(b).value] && Ext(p) == b[LastDot(b).value..]
      else
        Name(p) == b && Ext(p) == ""
  {
  }

  /** Joining a segment in front of at least one more puts a separator between them. */
  lemma JoinSegmentsCons(head: string, rest: seq<string>)
    requires rest != []
    ensures JoinSegments([head] + rest) == head + "/" + JoinSegments(rest)
  {
    var ss := [head] + rest;
    assert ss[0] == head && ss[1..] == rest;
  }

  /** Splitting and joining again gives the path back. */
  lemma {:induction false} JoinSegmentsOfSegments(s: string)
    ensures JoinSegments(Segments(s)) == s
    decreases |s|
  {
    if '/' in s {
      var i := FirstIndex(s, '/');
      var rest := Segments(s[i + 1..]);
      assert Segments(s) == [s[..i]] + rest;
      JoinSegmentsOfSegments(s[i + 1..]);
      JoinSegmentsCons(s[..i], rest);
      assert s == s[..i] + "/" + s[i + 1..];
    }
  }

  /** Splitting at one separator splits the two sides independently. */
  lemma {:induction false} SegmentsAround(x: string, y: string)
    ensures Segments(x + "/" + y) == Segments(x) + Segments(y)
    decreases |x|
  {
    var s := x + "/" + y;
    if '/' in x {
      var i := FirstIndex(x, '/');
      assert s[..i] == x[..i] && s[i] == '/';
      assert FirstIndex(s, '/') == i by {
        assert '/' !in s[..i];
        FirstIndexUnique(s, '/', i);
      }
      assert s[i + 1..] == x[i + 1..] + "/" + y;
      SegmentsAround(x[i + 1..], y);
    } else {
      assert s[..|x|] == x && s[|x|] == '/';
      FirstIndexUnique(s, '/', |x|);
      assert s[|x| + 1..] == y;
    }
  }

  lemma FirstIndexUnique(s: string, c: char, i: nat)
    requires i < |s| && s[i] == c && c !in s[..i]
    ensures FirstIndex(s, c) == i
  {
  }

  /** Joining segments without separators and splitting again gives them back. */
  lemma {:induction false} SegmentsOfJoinSegments(ss: seq<string>)
    requires |ss| >= 1
    requires forall i :: 0 <= i < |ss| ==> '/' !in ss[i]
    ensures Segments(JoinSegments(ss)) == ss
    decreases |ss|
  {
    if |ss| == 1 {
    } else {
      assert ss == [ss[0]] + ss[1..];
      JoinSegmentsCons(ss[0], ss[1..]);
      SegmentsOfJoinSegments(ss[1..]);
      SegmentsAround(ss[0], JoinSegments(ss[1..]));
      assert Segments(ss[0]) == [ss[0]];
    }
  }

  /** Each step of normalisation keeps the segments in normal form. */
  lemma PushCanonical(stack: seq<string>, segment: string, aboveRoot: bool)
    requires Canonical(stack, aboveRoot) && '/' !in segment
    ensures Canonical(Push(stack, segment, aboveRoot), aboveRoot)
  {
    var r := Push(stack, segment, aboveRoot);
    if segment == ".." && !(|stack| > 0 && stack[|stack| - 1] != "..") && aboveRoot {
      assert forall i :: 0 <= i < |stack| ==> stack[i] == "..";
      assert forall i :: 0 <= i < |r| ==> r[i] == "..";
    }
  }

  /** Normalisation yields segments in normal form. */
  lemma {:induction false} ResolveCanonical(stack: seq<string>, segments: seq<string>, aboveRoot: bool)
    requires Canonical(stack, aboveRoot)
    requires forall i :: 0 <= i < |segments| ==> '/' !in segments[i]
    ensures Canonical(ResolveFrom(stack, segments, aboveRoot), aboveRoot)
    decreases |segments|
  {
    if segments != [] {
      PushCanonical(stack, segments[0], aboveRoot);
      ResolveCanonical(Push(stack, segments[0], aboveRoot), segments[1..], aboveRoot);
    }
  }

  /** Segments already in normal form are kept exactly. */
  lemma {:induction false} ResolveOfCanonical(stack: seq<string>, segments: seq<string>, aboveRoot: bool)
    requires Canonical(stack + segments, aboveRoot)
    ensures ResolveFrom(stack, segments, aboveRoot) == stack + segments
    decreases |segments|
  {
    if segments != [] {
      var all := stack + segments;
      assert all[|stack|] == segments[0];
      assert segments[0] != "" && segments[0] != ".";
      if |stack| > 0 {
        assert stack[|stack| - 1] == all[|stack| - 1];
      }
      if segments[0] == ".." {
        assert forall i :: 0 <= i < |stack| ==> all[i] == "..";
        assert ".." in all;
      }
      assert Push(stack, segments[0], aboveRoot) == stack + [segments[0]];
      assert (stack + [segments[0]]) + segments[1..] == all;
      ResolveOfCanonical(stack + [segments[0]], segments[1..], aboveRoot);
    }
  }

  /** Normalising a concatenation is normalising its parts in turn. */
  lemma {:induction false} ResolveAppend(stack: seq<string>, xs: seq<string>, ys: seq<string>, aboveRoot: bool)
    ensures ResolveFrom(stack, xs + ys, aboveRoot) == ResolveFrom(ResolveFrom(stack, xs, aboveRoot), ys, aboveRoot)
    decreases |xs|
  {
    if xs != [] {
      assert (xs + ys)[0] == xs[0] && (xs + ys)[1..] == xs[1..] + ys;
      ResolveAppend(Push(stack, xs[0], aboveRoot), xs[1..], ys, aboveRoot);
    } else {
      assert xs + ys == ys;
    }
  }

  /** Gluing two strings makes no "//" unless one ends and the other starts with '/'. */
  lemma NoDoubleSlashConcat(a: string, b: string)
    requires NoDoubleSlash(a) && NoDoubleSlash(b)
    requires a == "" || b == "" || a[|a| - 1] != '/' || b[0] != '/'
    ensures NoDoubleSlash(a + b)
  {
    var s := a + b;
    forall i, j | 0 <= i < j < |s| && j == i + 1
      ensures s[i] != '/' || s[j] != '/'
    {
      if j < |a| {
        assert s[i] == a[i] && s[j] == a[j];
      } else if i >= |a| {
        assert s[i] == b[i - |a|] && s[j] == b[j - |a|];
      }
    }
  }

  /** Joined normal-form segments neither start nor end with '/' and hold no "//". */
  lemma {:induction false} JoinSegmentsShape(ss: seq<string>, aboveRoot: bool)
    requires Canonical(ss, aboveRoot) && ss != []
    ensures var body := JoinSegments(ss);
      body != "" && body[0] != '/' && body[|body| - 1] != '/' && NoDoubleSlash(body)
    decreases |ss|
  {
    var s0 := ss[0];
    assert s0 != "" && '/' !in s0;
    assert s0[0] != '/' && s0[|s0| - 1] != '/';
    assert NoDoubleSlash(s0);
    if |ss| > 1 {
      JoinSegmentsShape(ss[1..], aboveRoot);
      var rest := JoinSegments(ss[1..]);
      NoDoubleSlashConcat(s0, "/");
      NoDoubleSlashConcat(s0 + "/", rest);
      assert JoinSegments(ss) == (s0 + "/") + rest;
    }
  }

  /** A body in normal form keeps no "//" when a separator is put around it. */
  lemma WrappedNoDoubleSlash(pre: string, body: string, post: string)
    requires pre == "" || pre == "/"
    requires post == "" || post == "/"
    requires body != "" && body[0] != '/' && body[|body| - 1] != '/' && NoDoubleSlash(body)
    ensures pre + body + post != "" && NoDoubleSlash(pre + body + post)
  {
    NoDoubleSlashConcat(pre, body);
    NoDoubleSlashConcat(pre + body, post);
  }

  /** A normalised path is never empty and never holds "//". */
  lemma NormalizeNoDoubleSlash(p: string)
    ensures Normalize(p) != "" && NoDoubleSlash(Normalize(p))
  {
    if p != "" {
      var absolute := p[0] == '/';
      var ss := ResolveFrom([], Segments(p), !absolute);
      ResolveCanonical([], Segments(p), !absolute);
      if ss != [] {
        JoinSegmentsShape(ss, !absolute);
        WrappedNoDoubleSlash(if absolute then "/" else "", JoinSegments(ss), if p[|p| - 1] == '/' then "/" else "");
      }
    }
  }

  /** Normalising keeps a trailing separator. */
  lemma NormalizeKeepsTrailingSlash(p: string)
    requires EndsWith(p, "/")
    ensures EndsWith(Normalize(p), "/")
  {
  }

  /** Normalising twice is normalising once. */
  lemma NormalizeIdempotent(p: string)
    ensures Normalize(Normalize(p)) == Normalize(p)
  {
    if p == "" {
      NormalizeFixedPoints();
    } else {
      var absolute := p[0] == '/';
      var trailing := p[|p| - 1] == '/';
      var ss := ResolveFrom([], Segments(p), !absolute);
      ResolveCanonical([], Segments(p), !absolute);
      if ss == [] {
        NormalizeFixedPoints();
      } else {
        NormalizeRebuilt(ss, absolute, trailing);
      }
    }
  }

  /** A path rebuilt from normal-form segments normalises to itself. */
  lemma {:induction false} NormalizeRebuilt(ss: seq<string>, absolute: bool, trailing: bool)
    requires Canonical(ss, !absolute) && ss != []
    ensures var q := (if absolute then "/" else "") + JoinSegments(ss) + (if trailing then "/" else "");
      Normalize(q) == q
  {
    var body := JoinSegments(ss);
    JoinSegmentsShape(ss, !absolute);
    var pre: string := if absolute then "/" else "";
    var post: string := if trailing then "/" else "";
    var q := pre + body + post;
    SegmentsRebuilt(ss, absolute, trailing);
    ResolveRebuilt(ss, absolute, trailing);
    WrappedEnds(pre, body, post);
    NormalizeFromParts(q, ss, absolute, trailing);
  }

  /** Where a path starts and ends with a separator, given its body. */
  lemma WrappedEnds(pre: string, body: string, post: string)
    requires pre == "" || pre == "/"
    requires post == "" || post == "/"
    requires body != "" && body[0] != '/' && body[|body| - 1] != '/'
    ensures var q := pre + body + post;
      q != "" && (q[0] == '/' <==> pre == "/") && (q[|q| - 1] == '/' <==> post == "/")
  {
  }

  /** Normalising a path whose flags and normalised segments are known. */
  lemma NormalizeFromParts(q: string, ss: seq<string>, absolute: bool, trailing: bool)
    requires q != "" && (q[0] == '/' <==> absolute) && (q[|q| - 1] == '/' <==> trailing)
    requires ResolveFrom([], Segments(q), !absolute) == ss && JoinSegments(ss) != ""
    ensures Normalize(q) == (if absolute then "/" else "") + JoinSegments(ss) + (if trailing then "/" else "")
  {
  }

  /** Normalising the segments of a rebuilt path gives back its normal-form segments. */
  lemma {:induction false} ResolveRebuilt(ss: seq<string>, absolute: bool, trailing: bool)
    requires Canonical(ss, !absolute)
    ensures ResolveFrom([], (if absolute then [""] else []) + (ss + (if trailing then [""] else [])), !absolute) == ss
  {
    var a: seq<string> := if absolute then [""] else [];
    var b: seq<string> := if trailing then [""] else [];
    ResolveAppend([], a, ss + b, !absolute);
    assert ResolveFrom([], a, !absolute) == [];
    ResolveAppend([], ss, b, !absolute);
    ResolveOfCanonical([], ss, !absolute);
    assert [] + ss == ss;
    assert ResolveFrom(ss, b, !absolute) == ss;
  }

  /** The segments of a rebuilt path: an empty one for each added separator. */
  lemma {:induction false} SegmentsRebuilt(ss: seq<string>, absolute: bool, trailing: bool)
    requires ss != [] && forall i :: 0 <= i < |ss| ==> '/' !in ss[i]
    ensures Segments((if absolute then "/" else "") + JoinSegments(ss) + (if trailing then "/" else ""))
            == (if absolute then [""] else []) + (ss + (if trailing then [""] else []))
  {
    var body := JoinSegments(ss);
    var post: string := if trailing then "/" else "";
    SegmentsWithTrailing(ss, trailing);
    if absolute {
      SegmentsLeading(body + post);
      assert "/" + body + post == "/" + (body + post);
    } else {
      assert "" + body + post == body + post;
      assert [] + (ss + (if trailing then [""] else [])) == ss + (if trailing then [""] else []);
    }
  }

  /** The segments of joined segments with a separator maybe added at the end. */
  lemma {:induction false} SegmentsWithTrailing(ss: seq<string>, trailing: bool)
    requires ss != [] && forall i :: 0 <= i < |ss| ==> '/' !in ss[i]
    ensures Segments(JoinSegments(ss) + (if trailing then "/" else "")) == ss + (if trailing then [""] else [])
  {
    var body := JoinSegments(ss);
    SegmentsOfJoinSegments(ss);
    if trailing {
      SegmentsTrailing(body);
    } else {
      assert body + "" == body;
      assert ss + [] == ss;
    }
  }

  lemma SegmentsTrailing(x: string)
    ensures Segments(x + "/") == Segments(x) + [""]
  {
    SegmentsAround(x, "");
    assert x + "/" == x + "/" + "";
  }

  lemma SegmentsLeading(x: string)
    ensures Segments("/" + x) == [""] + Segments(x)
  {
    SegmentsAround("", x);
    assert "/" + x == "" + "/" + x;
  }

  /** The three results of normalising to no segments are left as they are. */
  lemma NormalizeFixedPoints()
    ensures Normalize("/") == "/" && Normalize("./") == "./" && Normalize(".") == "."
  {
    NormalizeRoot();
    NormalizeDotSlash();
    assert Segments(".") == ["."];
  }

  lemma NormalizeRoot()
    ensures Normalize("/") == "/"
  {
    SegmentsAround("", "");
    assert "/" == "" + "/" + "";
  }

  lemma NormalizeDotSlash()
    ensures Normalize("./") == "./"
  {
    SegmentsAround(".", "");
    assert "./" == "." + "/" + "";
  }

  /** A joined path is never empty and never holds "//". */
  lemma JoinNoDoubleSlash(parts: seq<string>)
    ensures Join(parts) != "" && NoDoubleSlash(Join(parts))
  {
    var kept := NonEmpty(parts);
    if kept != [] {
      NormalizeNoDoubleSlash(JoinSegments(kept));
    }
  }

  /** A join whose last part ends with '/' ends with '/'. */
  lemma JoinKeepsTrailingSlash(parts: seq<string>)
    requires |parts| > 0 && EndsWith(parts[|parts| - 1], "/")
    ensures EndsWith(Join(parts), "/")
  {
    var kept := NonEmpty(parts);
    JoinSegmentsEndsWithLast(kept);
  }

  lemma {:induction false} JoinSegmentsEndsWithLast(ss: seq<string>)
    requires ss != []
    ensures EndsWith(JoinSegments(ss), ss[|ss| - 1])
    decreases |ss|
  {
    if |ss| > 1 {
      JoinSegmentsEndsWithLast(ss[1..]);
    }
  }

  /** Joining is idempotent: a joined path joins to itself. */
  lemma JoinIdempotent(parts: seq<string>)
    ensures Join([Join(parts)]) == Join(parts)
  {
    JoinNoDoubleSlash(parts);
    var kept := NonEmpty(parts);
    assert NonEmpty([Join(parts)]) == [Join(parts)];
    assert JoinSegments([Join(parts)]) == Join(parts);
    if kept == [] {
      NormalizeFixedPoints();
    } else {
      NormalizeIdempotent(JoinSegments(kept));
    }
  }
}
