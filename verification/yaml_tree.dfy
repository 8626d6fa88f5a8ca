/**
 The parsed form of a locale file, and the strict left-to-right key walk the
 translation verifier performs over it (verify_translations.rb, lines 110-119).
 */
module YamlTree {
  import opened Optional

  /** A parsed YAML value. `Map` is a Ruby Hash restricted to its String keys
      (the verifier only ever looks keys up by String); `Str` is a Ruby String;
      `Other` is everything else `YAML.safe_load` can produce: nil (an empty
      document), arrays, numbers, booleans. */
  datatype Node = Map(entries: map<string, Node>) | Str(text: string) | Other

  /** Ruby's `value.is_a?(Hash) && value.key?(key)`. */
  predicate HasKey(node: Node, key: string) {
    node.Map? && key in node.entries
  }

  /** Follows `path` from `node`, one key at a time, starting with `path[0]`.
      `None` when some key is absent or its parent is not a mapping. */
  function Walk(node: Node, path: seq<string>): Option<Node>
    decreases |path|
  {
    if |path| == 0 then Some(node)
    else if HasKey(node, path[0]) then Walk(node.entries[path[0]], path[1..])
    else None
  }

  /** The walk stops at segment `i`: the first `i` segments resolve, and the
      value they reach has no key `path[i]`. */
  predicate FailsAt(node: Node, path: seq<string>, i: int) {
    && 0 <= i < |path|
    && Walk(node, path[..i]).Some?
    && !HasKey(Walk(node, path[..i]).value, path[i])
  }

  /** Walking one key and then the rest is walking the whole path. */
  lemma WalkCons(node: Node, key: string, rest: seq<string>)
    ensures Walk(node, [key] + rest)
         == if HasKey(node, key) then Walk(node.entries[key], rest) else None
  {
    assert ([key] + rest)[0] == key;
    assert ([key] + rest)[1..] == rest;
  }

  /** Walking `p + q` is walking `p` and then, from where it ends, `q`. */
  lemma {:induction false} WalkAppend(node: Node, p: seq<string>, q: seq<string>)
    ensures Walk(node, p + q)
         == match Walk(node, p) { case None => None case Some(n) => Walk(n, q) }
    decreases |p|
  {
    if |p| == 0 {
      assert p + q == q;
    } else {
      assert (p + q)[0] == p[0];
      assert (p + q)[1..] == p[1..] + q;
      if HasKey(node, p[0]) {
        WalkAppend(node.entries[p[0]], p[1..], q);
      }
    }
  }

  /** Extending a resolved prefix by one segment is one more lookup. */
  lemma WalkSnoc(node: Node, path: seq<string>, i: nat)
    requires i < |path|
    ensures Walk(node, path[..i+1])
         == match Walk(node, path[..i]) {
              case None => None
              case Some(n) => if HasKey(n, path[i]) then Some(n.entries[path[i]]) else None }
  {
    assert path[..i+1] == path[..i] + [path[i]];
    WalkAppend(node, path[..i], [path[i]]);
    match Walk(node, path[..i]) {
      case None =>
      case Some(n) =>
        assert [path[i]][1..] == [];
    }
  }

  /** Once a prefix fails, every longer prefix fails too. */
  lemma {:induction false} FailurePersists(node: Node, path: seq<string>, i: nat, j: nat)
    requires i <= j <= |path|
    requires Walk(node, path[..i]).None?
    ensures Walk(node, path[..j]).None?
    decreases j - i
  {
    if i < j {
      WalkSnoc(node, path, i);
      FailurePersists(node, path, i + 1, j);
    }
  }

  /** The walk fails exactly when it stops at some segment, and that segment is
      unique: only the first missing key is ever reached. */
  lemma {:induction false} WalkFailsIffFailsAt(node: Node, path: seq<string>)
    ensures Walk(node, path).None? <==> exists i :: FailsAt(node, path, i)
    ensures forall i, j :: FailsAt(node, path, i) && FailsAt(node, path, j) ==> i == j
  {
    assert path[..|path|] == path;
    if Walk(node, path).None? {
      // Find the longest prefix that still resolves.
      var k: nat := 0;
      assert path[..0] == [];
      while k < |path| && Walk(node, path[..k+1]).Some?
        invariant k <= |path|
        invariant Walk(node, path[..k]).Some?
        decreases |path| - k
      {
        k := k + 1;
      }
      assert k < |path|;
      WalkSnoc(node, path, k);
      assert FailsAt(node, path, k);
    } else {
      forall i | 0 <= i < |path| && FailsAt(node, path, i)
        ensures false
      {
        WalkSnoc(node, path, i);
        FailurePersists(node, path, i + 1, |path|);
      }
    }
    forall i, j | FailsAt(node, path, i) && FailsAt(node, path, j)
      ensures i == j
    {
      if i < j {
        WalkSnoc(node, path, i);
        FailurePersists(node, path, i + 1, j);
      } else if j < i {
        WalkSnoc(node, path, j);
        FailurePersists(node, path, j + 1, i);
      }
    }
  }

  /** A walk that stops at some segment does not resolve. */
  lemma StopMeansNoWalk(node: Node, path: seq<string>, i: nat)
    requires FailsAt(node, path, i)
    ensures Walk(node, path).None?
  {
    WalkFailsIffFailsAt(node, path);
  }

  /** The verifier's loop as written: walks `path` key by key and stops at the
      first key that is missing or whose parent is not a mapping. `stop` is the
      index of that key, or `|path|` when the whole path resolves. */
  method WalkPath(node: Node, path: seq<string>) returns (r: Option<Node>, stop: nat)
    ensures r == Walk(node, path)
    ensures r.Some? <==> stop == |path|
    ensures r.None? ==> FailsAt(node, path, stop)
  {
    var current := node;
    var i := 0;
    assert path[..0] == [];
    while i < |path|
      invariant 0 <= i <= |path|
      invariant Walk(node, path[..i]) == Some(current)
    {
      var key := path[i];
      WalkSnoc(node, path, i);
      if !(current.Map? && key in current.entries) {
        assert FailsAt(node, path, i);
        FailurePersists(node, path, i + 1, |path|);
        assert path[..|path|] == path;
        return None, i;
      }
      current := current.entries[key];
      i := i + 1;
    }
    assert path[..|path|] == path;
    return Some(current), |path|;
  }
}
