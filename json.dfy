/**
 * Parsed JSON values and the two path operations the ref rewriting performs
 * on them: lodash's `get(value, path)` and an assignment at the end of a path.
 * Path steps are property keys, as in JavaScript: a key selects an object's
 * member, and on an array a canonical decimal key ("0", "1", ...) selects an
 * element.
 */
module Json {
  import opened Wrappers

  datatype Json =
    | Null
    | Bool(b: bool)
    | Num(n: real)
    | Str(s: string)
    | Arr(items: seq<Json>)
    | Obj(fields: map<string, Json>)

  predicate IsDigit(c: char) {
    '0' <= c <= '9'
  }

  function DigitValue(c: char): (d: nat)
    requires IsDigit(c)
    ensures d < 10
  {
    (c as int - '0' as int) as nat
  }

  function DigitChar(d: nat): (c: char)
    requires d < 10
    ensures IsDigit(c) && DigitValue(c) == d
  {
    (d + '0' as int) as char
  }

  /** The decimal text of an array index, as JavaScript writes it as a key. */
  function IndexKey(i: nat): (k: string)
    ensures |k| >= 1
    decreases i
  {
    if i < 10 then [DigitChar(i)] else IndexKey(i / 10) + [DigitChar(i % 10)]
  }

  /**
   * The array index that a key denotes: a decimal numeral without leading
   * zeros. The numeral is the key's only spelling of that index.
   */
  function ArrayIndex(key: string): (r: Option<nat>)
    ensures r.Some? ==> IndexKey(r.value) == key
    ensures r.Some? && |key| > 1 ==> r.value >= 10
    decreases |key|
  {
    var n := |key|;
    if n == 0 || !IsDigit(key[n - 1]) then None
    else if n == 1 then Some(DigitValue(key[0]))
    else if key[0] == '0' then None
    else
      match ArrayIndex(key[..n - 1])
      case None => None
      case Some(m) =>
        assert key[..n - 1][0] == key[0];
        assert m >= 1;
        var i := 10 * m + DigitValue(key[n - 1]);
        assert i / 10 == m && i % 10 == DigitValue(key[n - 1]);
        assert key == key[..n - 1] + [key[n - 1]];
        Some(i)
  }

  /** The numeral of a positive index does not start with '0'. */
  lemma {:induction false} IndexKeyLeadingDigit(i: nat)
    requires i >= 1
    ensures IndexKey(i)[0] != '0'
    decreases i
  {
    if i >= 10 {
      IndexKeyLeadingDigit(i / 10);
      assert IndexKey(i)[0] == IndexKey(i / 10)[0];
    }
  }

  /** The numeral of an index denotes that index: `IndexKey` and `ArrayIndex` round-trip. */
  lemma {:induction false} ArrayIndexOfIndexKey(i: nat)
    ensures ArrayIndex(IndexKey(i)) == Some(i)
    decreases i
  {
    if i >= 10 {
      var key := IndexKey(i);
      var n := |key|;
      ArrayIndexOfIndexKey(i / 10);
      IndexKeyLeadingDigit(i / 10);
      assert key[..n - 1] == IndexKey(i / 10);
      assert key[0] == IndexKey(i / 10)[0] != '0';
      assert key[n - 1] == DigitChar(i % 10);
    }
  }

  /** The member or element that one key selects, or undefined (None). */
  function Child(j: Json, key: string): Option<Json>
  {
    match j
    case Obj(fields) => if key in fields then Some(fields[key]) else None
    case Arr(items) =>
      (match ArrayIndex(key)
       case Some(i) => if i < |items| then Some(items[i]) else None
       case None => None)
    case _ => None
  }

  /** lodash's `get(j, path)`: undefined (None) as soon as a step finds nothing. */
  function At(j: Json, path: seq<string>): Option<Json>
    decreases |path|
  {
    if path == [] then Some(j)
    else
      match Child(j, path[0])
      case None => None
      case Some(c) => At(c, path[1..])
  }

  /**
   * The value with `v` assigned at the end of `path`. It is only applied
   * where `At` finds a value; a path that leads nowhere leaves `j` as it is.
   */
  function Set(j: Json, path: seq<string>, v: Json): Json
    decreases |path|
  {
    if path == [] then v
    else
      match j
      case Obj(fields) =>
        if path[0] in fields then Obj(fields[path[0] := Set(fields[path[0]], path[1..], v)]) else j
      case Arr(items) =>
        (match ArrayIndex(path[0])
         case Some(i) => if i < |items| then Arr(items[i := Set(items[i], path[1..], v)]) else j
         case None => j)
      case _ => j
  }

  /** The two paths part ways: they differ at a position both have. */
  predicate Diverges(p: seq<string>, q: seq<string>) {
    exists i :: 0 <= i < |p| && i < |q| && p[i] != q[i]
  }

  /** Reading one step further than `path`. */
  lemma {:induction false} AtAppend(j: Json, path: seq<string>, key: string)
    ensures At(j, path + [key]) == match At(j, path) case Some(c) => Child(c, key) case None => None
    decreases |path|
  {
    if path == [] {
      assert [] + [key] == [key];
      assert At(j, [key]) == match Child(j, key) case None => None case Some(c) => At(c, []);
    } else {
      assert (path + [key])[0] == path[0];
      assert (path + [key])[1..] == path[1..] + [key];
      match Child(j, path[0])
      case None =>
      case Some(c) => AtAppend(c, path[1..], key);
    }
  }

  /** What was assigned is read back at the same path. */
  lemma {:induction false} AtSet(j: Json, path: seq<string>, v: Json)
    requires At(j, path).Some?
    ensures At(Set(j, path, v), path) == Some(v)
    decreases |path|
  {
    if path != [] {
      match j
      case Obj(fields) =>
        AtSet(fields[path[0]], path[1..], v);
      case Arr(items) =>
        AtSet(items[ArrayIndex(path[0]).value], path[1..], v);
      case _ =>
    }
  }

  /** An assignment leaves every path that parts ways with it as it was. */
  lemma {:induction false} SetFrame(j: Json, p: seq<string>, q: seq<string>, v: Json)
    requires Diverges(p, q)
    ensures At(Set(j, p, v), q) == At(j, q)
    decreases |p|
  {
    var i :| 0 <= i < |p| && i < |q| && p[i] != q[i];
    if i == 0 {
      SetFrameFirstKey(j, p, q, v);
    } else {
      assert p[1..][i - 1] != q[1..][i - 1];
      match j
      case Obj(fields) =>
        if p[0] in fields {
          SetFrame(fields[p[0]], p[1..], q[1..], v);
        }
      case Arr(items) =>
        if ArrayIndex(p[0]).Some? && ArrayIndex(p[0]).value < |items| {
          SetFrame(items[ArrayIndex(p[0]).value], p[1..], q[1..], v);
        }
      case _ =>
    }
  }

  /**
   * Paths whose first keys differ select different members, or different
   * elements since an index has one spelling only.
   */
  lemma SetFrameFirstKey(j: Json, p: seq<string>, q: seq<string>, v: Json)
    requires p != [] && q != [] && p[0] != q[0]
    ensures At(Set(j, p, v), q) == At(j, q)
  {
  }

  /** An assignment leaves every path that parts ways with it as it was. */
  lemma SetLeavesOthers(j: Json, p: seq<string>, v: Json)
    ensures forall q :: Diverges(p, q) ==> At(Set(j, p, v), q) == At(j, q)
  {
    forall q | Diverges(p, q)
      ensures At(Set(j, p, v), q) == At(j, q)
    {
      SetFrame(j, p, q, v);
    }
  }
}
