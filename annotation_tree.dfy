/** `buildNodeTree` and `getAnnotationByObjectId`: rebuild the nested layer tree
    below a layer from the flat list of layer records (each naming its own
    `object_id` and its parent's `parent_id`), then clean it. */
module AnnotationTree {
  import opened Json
  import opened AnnotationClean

  /** `node.object_id` */
  function ObjectId(r: Record): Value
  {
    Get(r, "object_id")
  }

  /** `node.parent_id` */
  function ParentId(r: Record): Value
  {
    Get(r, "parent_id")
  }

  /** `allNodes.filter((node) => node.parent_id === parentId)`: the records whose
      parent id is `p`. Ids are compared as values, which agrees with `===` on
      the strings, numbers and `undefined` that ids hold. */
  function DirectChildren(p: Value, all: seq<Record>): (kids: seq<Record>)
    ensures forall r :: r in kids <==> r in all && ParentId(r) == p
    ensures |kids| <= |all|
  {
    if all == [] then []
    else (if ParentId(all[0]) == p then [all[0]] else []) + DirectChildren(p, all[1..])
  }

  /** Filtering keeps input order: the children found in `a + b` are those found
      in `a` followed by those found in `b`. */
  lemma {:induction false} DirectChildrenAppend(p: Value, a: seq<Record>, b: seq<Record>)
    ensures DirectChildren(p, a + b) == DirectChildren(p, a) + DirectChildren(p, b)
  {
    if a == [] {
      assert a + b == b;
    } else {
      assert (a + b)[1..] == a[1..] + b;
      DirectChildrenAppend(p, a[1..], b);
    }
  }

  /** A termination witness for `buildNodeTree(p, all)`: along every parent link
      reachable below `p` the rank strictly falls. Links whose parent ranks above
      `p` are unconstrained, so cycles not reachable from `p` are allowed; a cycle
      reachable from `p` is not (see `CycleRulesOutRank`, `LoopBelowRulesOutRank`
      and `RankedIffTerminates`). */
  ghost predicate Ranked(p: Value, all: seq<Record>, rank: Value -> nat)
  {
    forall r :: r in all && rank(ParentId(r)) <= rank(p) ==> rank(ObjectId(r)) < rank(ParentId(r))
  }

  /** The records of `nodes` as array elements. */
  function Nodes(nodes: seq<Record>): seq<Value>
  {
    seq(|nodes|, i requires 0 <= i < |nodes| => Obj(nodes[i]))
  }

  /** `childrenOfChild.length > 0 ? childrenOfChild : undefined` */
  function ChildrenField(sub: seq<Record>): (c: Value)
    ensures c.Undefined? <==> sub == []
    ensures c.Undefined? || c.Arr?
    ensures c.Arr? ==> |c.items| == |sub| && forall j :: 0 <= j < |sub| ==> c.items[j] == Obj(sub[j])
  {
    if |sub| > 0 then Arr(Nodes(sub)) else Undefined
  }

  /** A direct child of `p` ranks below `p`, and the witness carries over to it. */
  lemma RankedChild(p: Value, all: seq<Record>, rank: Value -> nat, child: Record)
    requires Ranked(p, all, rank)
    requires child in all && ParentId(child) == p
    ensures rank(ObjectId(child)) < rank(p)
    ensures Ranked(ObjectId(child), all, rank)
  {
  }

  /** `buildNodeTree(p, all)`: a copy of each direct child of `p`, in input order,
      each completed by `BuildChild`. */
  function BuildTree(p: Value, all: seq<Record>, ghost rank: Value -> nat): (tree: seq<Record>)
    requires Ranked(p, all, rank)
    ensures |tree| == |DirectChildren(p, all)|
    ensures forall i :: 0 <= i < |tree| ==> IsNode(Obj(tree[i]))
    decreases rank(p), 1
  {
    var kids := DirectChildren(p, all);
    seq(|kids|, i requires 0 <= i < |kids| =>
      assert kids[i] in kids;
      RankedChild(p, all, rank, kids[i]);
      BuildChild(kids[i], all, rank))
  }

  /** `{ ...child, children: ... }`: a copy of `child` whose `children` is set to
      its own rebuilt children, or to `undefined` when it has none. */
  function BuildChild(child: Record, all: seq<Record>, ghost rank: Value -> nat): (node: Record)
    requires Ranked(ObjectId(child), all, rank)
    ensures IsNode(Obj(node))
    decreases rank(ObjectId(child)), 2
  {
    var sub := BuildTree(ObjectId(child), all, rank);
    assert forall j :: 0 <= j < |Nodes(sub)| ==> IsNode(Nodes(sub)[j]);
    child["children" := ChildrenField(sub)]
  }

  /** `t` is a node rebuilt below parent id `p` from `all`: an object whose parent id
      is `p` and whose `children` is `undefined` when its object id has no direct
      children in `all`, and otherwise an array holding one node per direct child,
      in input order, each a copy of that record apart from `children` and itself
      rebuilt in the same way. */
  ghost predicate Rebuilt(p: Value, t: Value, all: seq<Record>)
    decreases t
  {
    && t.Obj?
    && ParentId(t.fields) == p
    && "children" in t.fields
    && var kids := DirectChildren(ObjectId(t.fields), all);
       var c := t.fields["children"];
       if kids == [] then c.Undefined?
       else
         && c.Arr?
         && |c.items| == |kids|
         && forall i :: 0 <= i < |kids| ==>
              && Rebuilt(ObjectId(t.fields), c.items[i], all)
              && c.items[i].fields - {"children"} == kids[i] - {"children"}
  }

  /** `buildNodeTree(p, all)` returns exactly the direct children of `p`, in input
      order, each a copy with all its original fields, and below them the whole
      tree of descendants, with `children` left `undefined` exactly at the leaves. */
  lemma {:induction false} BuildTreeRebuilt(p: Value, all: seq<Record>, rank: Value -> nat)
    requires Ranked(p, all, rank)
    ensures var tree := BuildTree(p, all, rank);
            var kids := DirectChildren(p, all);
            && |tree| == |kids|
            && forall i :: 0 <= i < |tree| ==>
                 && tree[i] - {"children"} == kids[i] - {"children"}
                 && Rebuilt(p, Obj(tree[i]), all)
    decreases rank(p)
  {
    var tree := BuildTree(p, all, rank);
    var kids := DirectChildren(p, all);
    forall i | 0 <= i < |tree|
      ensures tree[i] - {"children"} == kids[i] - {"children"}
      ensures Rebuilt(p, Obj(tree[i]), all)
    {
      assert kids[i] in kids;
      RankedChild(p, all, rank, kids[i]);
      var id := ObjectId(kids[i]);
      BuildTreeRebuilt(id, all, rank);
      assert tree[i] == BuildChild(kids[i], all, rank);
      assert ObjectId(tree[i]) == id;
    }
  }

  /** Along a chain of parent links starting below `p`, every rank lies below `p`'s. */
  lemma {:induction false} ChainRanksBelow(p: Value, all: seq<Record>, rank: Value -> nat, chain: seq<Record>)
    requires Ranked(p, all, rank)
    requires forall k :: 0 <= k < |chain| ==> chain[k] in all
    requires |chain| > 0 ==> ParentId(chain[0]) == p
    requires forall k :: 0 < k < |chain| ==> ParentId(chain[k]) == ObjectId(chain[k - 1])
    ensures forall k :: 0 <= k < |chain| ==> rank(ObjectId(chain[k])) < rank(p)
  {
    if |chain| > 0 {
      var front := chain[..|chain| - 1];
      ChainRanksBelow(p, all, rank, front);
      var last := chain[|chain| - 1];
      if |chain| > 1 {
        assert rank(ParentId(last)) == rank(ObjectId(front[|front| - 1]));
      }
    }
  }

  /** A cyclic parent chain through `p` (a record that is its own parent, or `A`'s
      parent is `B` and `B`'s is `A`, ...) admits no rank: `buildNodeTree(p, all)`
      recurses without end there, and the model excludes it by precondition. */
  lemma CycleRulesOutRank(p: Value, all: seq<Record>, rank: Value -> nat, cycle: seq<Record>)
    requires |cycle| > 0
    requires forall k :: 0 <= k < |cycle| ==> cycle[k] in all
    requires ParentId(cycle[0]) == p
    requires forall k :: 0 < k < |cycle| ==> ParentId(cycle[k]) == ObjectId(cycle[k - 1])
    requires ObjectId(cycle[|cycle| - 1]) == p
    ensures !Ranked(p, all, rank)
  {
    if Ranked(p, all, rank) {
      ChainRanksBelow(p, all, rank, cycle);
    }
  }

  /** Along a chain of parent links starting below `p`, ranks strictly fall. */
  lemma {:induction false} ChainRanksFall(p: Value, all: seq<Record>, rank: Value -> nat, chain: seq<Record>, k: nat, l: nat)
    requires Ranked(p, all, rank)
    requires forall j :: 0 <= j < |chain| ==> chain[j] in all
    requires |chain| > 0 ==> ParentId(chain[0]) == p
    requires forall j :: 0 < j < |chain| ==> ParentId(chain[j]) == ObjectId(chain[j - 1])
    requires k < l < |chain|
    ensures rank(ObjectId(chain[l])) < rank(ObjectId(chain[k]))
    decreases l - k
  {
    ChainRanksBelow(p, all, rank, chain);
    assert rank(ParentId(chain[l])) == rank(ObjectId(chain[l - 1]));
    if k < l - 1 {
      ChainRanksFall(p, all, rank, chain, k, l - 1);
    }
  }

  /** A cycle further down also admits no rank: a chain of parent links from `p`
      that comes back to an object id it has already visited. */
  lemma LoopBelowRulesOutRank(p: Value, all: seq<Record>, rank: Value -> nat, chain: seq<Record>, m: nat)
    requires forall j :: 0 <= j < |chain| ==> chain[j] in all
    requires |chain| > 0 && ParentId(chain[0]) == p
    requires forall j :: 0 < j < |chain| ==> ParentId(chain[j]) == ObjectId(chain[j - 1])
    requires m < |chain| - 1 && ObjectId(chain[|chain| - 1]) == ObjectId(chain[m])
    ensures !Ranked(p, all, rank)
  {
    if Ranked(p, all, rank) {
      ChainRanksFall(p, all, rank, chain, m, |chain| - 1);
    }
  }

  /** `buildNodeTree(p, all)` finishes with calls nested at most `n` deep: every
      direct child's own call finishes within `n - 1`. As `all` is finite, the
      recursion ends exactly when some such bound exists. */
  ghost predicate TerminatesWithin(p: Value, all: seq<Record>, n: nat)
    decreases n
  {
    n > 0 && forall r :: r in all && ParentId(r) == p ==> TerminatesWithin(ObjectId(r), all, n - 1)
  }

  /** A larger bound holds whenever a smaller one does. */
  lemma {:induction false} TerminatesMonotone(p: Value, all: seq<Record>, m: nat, n: nat)
    requires TerminatesWithin(p, all, m) && m <= n
    ensures TerminatesWithin(p, all, n)
    decreases m
  {
    forall r | r in all && ParentId(r) == p
      ensures TerminatesWithin(ObjectId(r), all, n - 1)
    {
      TerminatesMonotone(ObjectId(r), all, m - 1, n - 1);
    }
  }

  /** With a rank, the recursion from `p` nests at most `rank(p) + 1` deep. */
  lemma {:induction false} RankedTerminates(p: Value, all: seq<Record>, rank: Value -> nat)
    requires Ranked(p, all, rank)
    ensures TerminatesWithin(p, all, rank(p) + 1)
    decreases rank(p)
  {
    forall r | r in all && ParentId(r) == p
      ensures TerminatesWithin(ObjectId(r), all, rank(p))
    {
      RankedChild(p, all, rank, r);
      RankedTerminates(ObjectId(r), all, rank);
      TerminatesMonotone(ObjectId(r), all, rank(ObjectId(r)) + 1, rank(p));
    }
  }

  /** The least bound from `d` up to `n` within which the recursion from `v` ends,
      or `n + 1` when there is none. */
  ghost function LeastDepth(v: Value, all: seq<Record>, n: nat, d: nat): (k: nat)
    requires d <= n + 1
    ensures d <= k <= n + 1
    ensures k <= n ==> TerminatesWithin(v, all, k)
    ensures forall e :: d <= e < k ==> !TerminatesWithin(v, all, e)
    decreases n + 1 - d
  {
    if d > n then n + 1
    else if TerminatesWithin(v, all, d) then d
    else LeastDepth(v, all, n, d + 1)
  }

  /** When the recursion from `p` ends within `n`, the least depth is a rank. */
  lemma TerminatesRanked(p: Value, all: seq<Record>, n: nat)
    requires TerminatesWithin(p, all, n)
    ensures exists rank: Value -> nat :: Ranked(p, all, rank)
  {
    var rank: Value -> nat := v => LeastDepth(v, all, n, 0);
    forall r | r in all && rank(ParentId(r)) <= rank(p)
      ensures rank(ObjectId(r)) < rank(ParentId(r))
    {
      var d := LeastDepth(ParentId(r), all, n, 0);
      assert TerminatesWithin(ObjectId(r), all, d - 1);
    }
    assert Ranked(p, all, rank);
  }

  /** The precondition of `BuildTree` excludes exactly the inputs on which
      `buildNodeTree(p, all)` recurses without end. */
  lemma RankedIffTerminates(p: Value, all: seq<Record>)
    ensures (exists rank: Value -> nat :: Ranked(p, all, rank)) <==> (exists n: nat :: TerminatesWithin(p, all, n))
  {
    if exists rank: Value -> nat :: Ranked(p, all, rank) {
      var rank: Value -> nat :| Ranked(p, all, rank);
      RankedTerminates(p, all, rank);
      assert TerminatesWithin(p, all, rank(p) + 1);
    }
    if exists n: nat :: TerminatesWithin(p, all, n) {
      var n: nat :| TerminatesWithin(p, all, n);
      TerminatesRanked(p, all, n);
    }
  }

  /** `nodes.find((node) => node.object_id === objectId)`, as the position of the
      first record with that object id, or `None` when there is none. */
  function FindByObjectId(objectId: string, nodes: seq<Record>): (found: Option<nat>)
    ensures found.None? <==> forall j :: 0 <= j < |nodes| ==> ObjectId(nodes[j]) != Str(objectId)
    ensures found.Some? ==>
              && found.value < |nodes|
              && ObjectId(nodes[found.value]) == Str(objectId)
              && forall j :: 0 <= j < found.value ==> ObjectId(nodes[j]) != Str(objectId)
  {
    if nodes == [] then None
    else if ObjectId(nodes[0]) == Str(objectId) then Some(0)
    else match FindByObjectId(objectId, nodes[1..])
      case None => None
      case Some(i) => Some(i + 1)
  }

  /** `{ ...current, children }`: the root record with its rebuilt children
      attached, an empty array when it has none. */
  function WithChildren(current: Record, children: seq<Record>): (root: Record)
    ensures root.Keys == current.Keys + {"children"}
    ensures forall k :: k in current && k != "children" ==> root[k] == current[k]
    ensures root["children"].Arr? && |root["children"].items| == |children|
    ensures forall j :: 0 <= j < |children| ==> root["children"].items[j] == Obj(children[j])
  {
    current["children" := Arr(Nodes(children))]
  }

  /** Cleaning the root with its children attached: the root's own fields are
      kept or dropped as cleaning decides, an empty children array disappears,
      and a non-empty one holds each child cleaned, in order. */
  lemma CleanWithChildren(current: Record, children: seq<Record>)
    requires forall j :: 0 <= j < |children| ==> IsNode(Obj(children[j]))
    ensures IsNode(Obj(WithChildren(current, children)))
    ensures var r := Clean(WithChildren(current, children));
            && IsClean(Obj(r))
            && (forall k :: k != "children" ==>
                  (k in r <==> k in current && k !in Denylist && !IsEmptyArray(current[k])))
            && (forall k :: k in r && k != "children" ==> r[k] == current[k])
            && ("children" in r <==> children != [])
            && ("children" in r ==>
                  && r["children"].Arr?
                  && |r["children"].items| == |children|
                  && forall j :: 0 <= j < |children| ==> r["children"].items[j] == Obj(Clean(children[j])))
  {
    var root := WithChildren(current, children);
    assert forall j :: 0 <= j < |Nodes(children)| ==> IsNode(Nodes(children)[j]);
    CleanFields(root);
    CleanIsClean(root);
    var r := Clean(root);
    assert "children" in r <==> children != [] by {
      assert IsEmptyArray(root["children"]) <==> |children| == 0;
    }
    forall k | k != "children"
      ensures k in r <==> k in current && k !in Denylist && !IsEmptyArray(current[k])
      ensures k in r ==> r[k] == current[k]
    {
      assert k in root <==> k in current;
      assert k in root ==> root[k] == current[k];
    }
  }

  /** `getAnnotationByObjectId(objectId, { nodes })`: `undefined` when no record has
      that object id; otherwise the first such record with its whole rebuilt tree
      as `children`, cleaned. */
  function GetAnnotationByObjectId(objectId: string, nodes: seq<Record>, ghost rank: Value -> nat): (result: Option<Record>)
    requires FindByObjectId(objectId, nodes).Some? ==> Ranked(Str(objectId), nodes, rank)
    ensures result.None? <==> forall j :: 0 <= j < |nodes| ==> ObjectId(nodes[j]) != Str(objectId)
  {
    match FindByObjectId(objectId, nodes)
    case None => None
    case Some(i) =>
      var current := nodes[i];
      var children := BuildTree(ObjectId(current), nodes, rank);
      CleanWithChildren(current, children);
      Some(Clean(WithChildren(current, children)))
  }

  /** When a record has the requested object id, the result is built from the first
      such record: its object id is the one requested, it keeps every field of that
      record that is neither denylisted nor an empty array, its tree is clean at
      every depth, its `children` key is absent exactly when the record has no
      direct children, and otherwise lists the cleaned rebuilt children in order. */
  lemma GetAnnotationFound(objectId: string, nodes: seq<Record>, rank: Value -> nat, i: nat)
    requires Ranked(Str(objectId), nodes, rank)
    requires i < |nodes| && ObjectId(nodes[i]) == Str(objectId)
    requires forall j :: 0 <= j < i ==> ObjectId(nodes[j]) != Str(objectId)
    ensures GetAnnotationByObjectId(objectId, nodes, rank).Some?
    ensures var root := GetAnnotationByObjectId(objectId, nodes, rank).value;
            var kids := DirectChildren(Str(objectId), nodes);
            var tree := BuildTree(Str(objectId), nodes, rank);
            && IsClean(Obj(root))
            && ObjectId(root) == Str(objectId)
            && (forall k :: k != "children" ==>
                  (k in root <==> k in nodes[i] && k !in Denylist && !IsEmptyArray(nodes[i][k])))
            && (forall k :: k in root && k != "children" ==> root[k] == nodes[i][k])
            && ("children" in root <==> kids != [])
            && ("children" in root ==>
                  && root["children"].Arr?
                  && |root["children"].items| == |kids|
                  && forall j :: 0 <= j < |kids| ==> root["children"].items[j] == Obj(Clean(tree[j])))
  {
    assert FindByObjectId(objectId, nodes) == Some(i);
    var tree := BuildTree(Str(objectId), nodes, rank);
    CleanWithChildren(nodes[i], tree);
    assert GetAnnotationByObjectId(objectId, nodes, rank) == Some(Clean(WithChildren(nodes[i], tree)));
    assert "object_id" !in Denylist;
  }
}
