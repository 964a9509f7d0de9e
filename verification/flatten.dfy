/** `flattenMessages` (src/utils.ts): a pre-order walk of a nested message
    object producing (dotted key, text) pairs. */
module Flatten {

  /** A message value: a string, a plain object (own keys in enumeration
      order), or anything else (arrays, numbers, null), which is skipped. */
  datatype Msg = Str(text: string) | Obj(fields: seq<(string, Msg)>) | Other

  /** `prefix ? prefix + "." + key : key`: the empty prefix is falsy. */
  function JoinKey(prefix: string, key: string): (full: string)
    ensures prefix == "" ==> full == key
    ensures prefix != "" ==> full == prefix + "." + key
  {
    if prefix != "" then prefix + "." + key else key
  }

  /** The (key, text) pairs of the string leaves under `obj`, keys extended
      from `prefix`. */
  function FlattenMessages(obj: seq<(string, Msg)>, prefix: string): (r: seq<(string, string)>)
    ensures r == Render(prefix, Leaves(obj, 0))
  {
    FlattenIsRenderedLeaves(obj, 0, prefix);
    FlattenFrom(obj, 0, prefix)
  }

  /** The `for (const key in obj)` loop from the `i`-th own key on. */
  function FlattenFrom(obj: seq<(string, Msg)>, i: nat, prefix: string): seq<(string, string)>
    requires i <= |obj|
    decreases Obj(obj), |obj| - i
  {
    if i == |obj| then []
    else
      var full := JoinKey(prefix, obj[i].0);
      var here := match obj[i].1
        case Str(text) => [(full, text)]
        case Obj(fields) => FlattenFrom(fields, 0, full)
        case Other => [];
      here + FlattenFrom(obj, i + 1, prefix)
  }

  /** Reference definition: the string leaves of `obj` from the `i`-th field
      on, in pre-order, each with the list of keys leading to it. */
  function Leaves(obj: seq<(string, Msg)>, i: nat): seq<(seq<string>, string)>
    requires i <= |obj|
    decreases Obj(obj), |obj| - i
  {
    if i == |obj| then []
    else
      var key := obj[i].0;
      var here := match obj[i].1
        case Str(text) => [([key], text)]
        case Obj(fields) => Under(key, Leaves(fields, 0))
        case Other => [];
      here + Leaves(obj, i + 1)
  }

  /** Puts `key` in front of every path. */
  function Under(key: string, ls: seq<(seq<string>, string)>): (r: seq<(seq<string>, string)>)
    ensures |r| == |ls|
    ensures forall i | 0 <= i < |ls| :: r[i] == ([key] + ls[i].0, ls[i].1)
  {
    seq(|ls|, i requires 0 <= i < |ls| => ([key] + ls[i].0, ls[i].1))
  }

  /** The key `flattenMessages` builds for a path: each step joins with `.`,
      except after an empty (falsy) prefix. */
  function KeyOf(prefix: string, path: seq<string>): string
    decreases |path|
  {
    if |path| == 0 then prefix else KeyOf(JoinKey(prefix, path[0]), path[1..])
  }

  /** Renders every leaf path as a key. */
  function Render(prefix: string, ls: seq<(seq<string>, string)>): (r: seq<(string, string)>)
    ensures |r| == |ls|
    ensures forall i | 0 <= i < |ls| :: r[i] == (KeyOf(prefix, ls[i].0), ls[i].1)
  {
    seq(|ls|, i requires 0 <= i < |ls| => (KeyOf(prefix, ls[i].0), ls[i].1))
  }

  lemma RenderUnder(prefix: string, key: string, ls: seq<(seq<string>, string)>)
    ensures Render(prefix, Under(key, ls)) == Render(JoinKey(prefix, key), ls)
  {
    forall i | 0 <= i < |ls|
      ensures KeyOf(prefix, ([key] + ls[i].0)) == KeyOf(JoinKey(prefix, key), ls[i].0)
    {
      assert ([key] + ls[i].0)[1..] == ls[i].0;
    }
  }

  /** `flattenMessages` lists exactly the string leaves, in pre-order, each
      keyed by its path joined onto the prefix. */
  lemma {:induction false} FlattenIsRenderedLeaves(obj: seq<(string, Msg)>, i: nat, prefix: string)
    requires i <= |obj|
    ensures FlattenFrom(obj, i, prefix) == Render(prefix, Leaves(obj, i))
    decreases Obj(obj), |obj| - i
  {
    if i < |obj| {
      var key := obj[i].0;
      FlattenIsRenderedLeaves(obj, i + 1, prefix);
      match obj[i].1
      case Str(text) =>
        assert KeyOf(prefix, [key]) == JoinKey(prefix, key);
      case Obj(fields) =>
        FlattenIsRenderedLeaves(fields, 0, JoinKey(prefix, key));
        RenderUnder(prefix, key, Leaves(fields, 0));
      case Other =>
    }
  }

  /** Joins path segments with `.`. */
  function Dotted(path: seq<string>): string
    decreases |path|
  {
    if |path| == 0 then ""
    else if |path| == 1 then path[0]
    else path[0] + "." + Dotted(path[1..])
  }

  /** With a non-empty prefix every step adds `.key`. */
  lemma {:induction false} KeyOfDotted(prefix: string, path: seq<string>)
    requires prefix != ""
    ensures KeyOf(prefix, path) == if |path| == 0 then prefix else prefix + "." + Dotted(path)
    decreases |path|
  {
    if |path| > 1 {
      KeyOfDotted(JoinKey(prefix, path[0]), path[1..]);
      assert path[1..][1..] == path[2..];
    }
  }

  /** From the top level, a leaf whose path starts with a non-empty key is
      keyed by its path joined with dots. */
  lemma TopLevelKeyIsDotted(path: seq<string>)
    requires |path| > 0 && path[0] != ""
    ensures KeyOf("", path) == Dotted(path)
  {
    KeyOfDotted(path[0], path[1..]);
    if |path| > 1 {
      assert path[1..][1..] == path[2..];
    }
  }

  /** An empty key at an outer level is swallowed, since an empty prefix is
      falsy: `{"": {"b": "x"}}` and `{"b": "x"}` both give `("b", "x")`. */
  lemma EmptyOuterKeyIsSwallowed()
    ensures FlattenMessages([("", Obj([("b", Str("x"))]))], "") == [("b", "x")]
    ensures FlattenMessages([("b", Str("x"))], "") == [("b", "x")]
  {
  }

  /** `{a: {b: "hello", c: "world"}}` gives `[("a.b", "hello"), ("a.c", "world")]`;
      arrays, numbers and null are skipped. */
  lemma NestedExample()
    ensures FlattenMessages([("a", Obj([("b", Str("hello")), ("c", Str("world"))])), ("n", Other)], "")
            == [("a.b", "hello"), ("a.c", "world")]
  {
    var inner := [("b", Str("hello")), ("c", Str("world"))];
    var obj := [("a", Obj(inner)), ("n", Other)];
    assert JoinKey("a", "b") == "a.b" && JoinKey("a", "c") == "a.c";
    assert FlattenFrom(inner, 2, "a") == [];
    assert FlattenFrom(inner, 1, "a") == [("a.c", "world")];
    assert FlattenFrom(inner, 0, "a") == [("a.b", "hello"), ("a.c", "world")];
    assert FlattenFrom(obj, 1, "") == [];
  }
}
