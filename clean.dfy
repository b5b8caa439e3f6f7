/** `cleanAnnotationNode`: strips a fixed denylist of fields and every field holding
    an empty array from a node, and cleans the nodes of a non-empty `children`
    array the same way. Other nested values are left as they are. */
module AnnotationClean {
  import opened Json

  /** The fields deleted whatever their value, in the order the source deletes them. */
  const Denylist: seq<string> := [
    "markedForExport",
    "getCSSAsyncSupport",
    "symbolDescription",
    "symbolId",
    "symbolName",
    "componentProperties",
    "documentationLinks",
    "realRect"
  ]

  /** The fields of `n` that survive both deletion passes, with their values. */
  function Pruned(n: Record): Record
  {
    map k | k in n && k !in Denylist && !IsEmptyArray(n[k]) :: n[k]
  }

  /** The node `cleanAnnotationNode(n)` returns. */
  function Clean(n: Record): (r: Record)
    requires IsNode(Obj(n))
    ensures IsNode(Obj(r))
    ensures r.Keys <= n.Keys
    decreases Obj(n)
  {
    var kept := Pruned(n);
    if "children" in kept && kept["children"].Arr? && |kept["children"].items| > 0 then
      var items := n["children"].items;
      assert forall i :: 0 <= i < |items| ==> IsNode(items[i]);
      kept["children" := Arr(seq(|items|, i requires 0 <= i < |items| => Obj(Clean(items[i].fields))))]
    else
      kept
  }

  /** At every depth of the `children` tree: no denylisted field and no field
      holding an empty array. */
  ghost predicate IsClean(v: Value)
    decreases v
  {
    && v.Obj?
    && (forall k :: k in v.fields ==> k !in Denylist && !IsEmptyArray(v.fields[k]))
    && ("children" in v.fields && v.fields["children"].Arr? ==>
          forall i :: 0 <= i < |v.fields["children"].items| ==> IsClean(v.fields["children"].items[i]))
  }

  /** Cleaning changes only what it is meant to: a field survives exactly when it
      is not denylisted and does not hold an empty array; every surviving field
      other than `children` keeps its value; a surviving `children` array keeps its
      length and order, each element replaced by its cleaned node; and nested
      values other than `children` are not descended into. */
  lemma CleanFields(n: Record)
    requires IsNode(Obj(n))
    ensures forall k :: k in Clean(n) <==> k in n && k !in Denylist && !IsEmptyArray(n[k])
    ensures forall k :: k in Clean(n) && k != "children" ==> Clean(n)[k] == n[k]
    ensures "children" in Clean(n) && !n["children"].Arr? ==> Clean(n)["children"] == n["children"]
    ensures "children" in Clean(n) && n["children"].Arr? ==>
              && Clean(n)["children"].Arr?
              && |Clean(n)["children"].items| == |n["children"].items| > 0
              && forall i :: 0 <= i < |n["children"].items| ==>
                   n["children"].items[i].Obj? && Clean(n)["children"].items[i] == Obj(Clean(n["children"].items[i].fields))
  {
  }

  /** Denylist completeness and empty-array pruning hold at every depth of the
      cleaned tree, whatever values the removed fields had. */
  lemma {:induction false} CleanIsClean(n: Record)
    requires IsNode(Obj(n))
    ensures IsClean(Obj(Clean(n)))
    decreases Obj(n)
  {
    var r := Clean(n);
    CleanFields(n);
    if "children" in r && r["children"].Arr? {
      var items := n["children"].items;
      forall i | 0 <= i < |items|
        ensures IsClean(r["children"].items[i])
      {
        assert items[i] == Obj(items[i].fields);
        CleanIsClean(items[i].fields);
      }
    }
  }

  /** A node that is already clean at every depth is left exactly as it is. */
  lemma {:induction false} CleanFixesClean(n: Record)
    requires IsNode(Obj(n)) && IsClean(Obj(n))
    ensures Clean(n) == n
    decreases Obj(n)
  {
    CleanFields(n);
    if "children" in n && n["children"].Arr? {
      var items := n["children"].items;
      forall i | 0 <= i < |items|
        ensures Clean(n)["children"].items[i] == items[i]
      {
        assert items[i] == Obj(items[i].fields);
        CleanFixesClean(items[i].fields);
      }
      assert Clean(n)["children"] == n["children"];
    }
  }

  /** The fixed points of cleaning are exactly the clean trees. */
  lemma CleanFixedPoints(n: Record)
    requires IsNode(Obj(n))
    ensures Clean(n) == n <==> IsClean(Obj(n))
  {
    CleanIsClean(n);
    if IsClean(Obj(n)) {
      CleanFixesClean(n);
    }
  }

  /** Cleaning an already cleaned node returns an equal node. */
  lemma CleanIdempotent(n: Record)
    requires IsNode(Obj(n))
    ensures Clean(Clean(n)) == Clean(n)
  {
    CleanIsClean(n);
    CleanFixesClean(Clean(n));
  }

  /** The first loop of `cleanAnnotationNode`: delete each denylisted field that is present. */
  method DeleteDenylisted(node: Record) returns (result: Record)
    ensures forall k :: k in result <==> k in node && k !in Denylist
    ensures forall k :: k in result ==> result[k] == node[k]
  {
    result := node;
    var f := 0;
    while f < |Denylist|
      invariant 0 <= f <= |Denylist|
      invariant forall k :: k in result <==> k in node && k !in Denylist[..f]
      invariant forall k :: k in result ==> result[k] == node[k]
    {
      var field := Denylist[f];
      if field in result {
        result := result - {field};
      }
      f := f + 1;
    }
    assert Denylist[..f] == Denylist;
  }

  /** The second loop of `cleanAnnotationNode`: delete each field whose value is an empty array. */
  method DeleteEmptyArrays(node: Record) returns (result: Record)
    ensures forall k :: k in result <==> k in node && !IsEmptyArray(node[k])
    ensures forall k :: k in result ==> result[k] == node[k]
  {
    result := node;
    var keys := node.Keys;
    while keys != {}
      invariant keys <= node.Keys
      invariant forall k :: k in result <==> k in node && (k in keys || !IsEmptyArray(node[k]))
      invariant forall k :: k in result ==> result[k] == node[k]
      decreases keys
    {
      var key :| key in keys;
      var value := result[key];
      if value.Arr? && |value.items| == 0 {
        result := result - {key};
      }
      keys := keys - {key};
    }
  }

  /** The imperative routine: copy the node, delete the denylisted fields, delete
      the empty-array fields, then replace a non-empty `children` by the cleaned
      children. The argument is a value, so it is left unchanged. */
  method CleanAnnotationNode(node: Record) returns (result: Record)
    requires IsNode(Obj(node))
    ensures result == Clean(node)
    decreases Obj(node)
  {
    result := DeleteDenylisted(node);
    result := DeleteEmptyArrays(result);
    assert result == Pruned(node);

    if "children" in result && result["children"].Arr? && |result["children"].items| > 0 {
      var items := result["children"].items;
      assert items == node["children"].items;
      var cleaned: seq<Value> := [];
      var j := 0;
      while j < |items|
        invariant 0 <= j <= |items|
        invariant |cleaned| == j
        invariant forall i :: 0 <= i < j ==> cleaned[i] == Obj(Clean(items[i].fields))
      {
        assert items[j] == Obj(items[j].fields);
        var child := CleanAnnotationNode(items[j].fields);
        cleaned := cleaned + [Obj(child)];
        j := j + 1;
      }
      assert cleaned == seq(|items|, i requires 0 <= i < |items| => Obj(Clean(items[i].fields)));
      result := result["children" := Arr(cleaned)];
    }
  }
}
