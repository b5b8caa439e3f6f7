/** The worked example of a subtree: layer 1 at the top level, layers 2 and 3
    under it, layer 4 under layer 2. */
module Scenarios {
  import opened Json
  import opened AnnotationClean
  import opened AnnotationTree

  function Layer(id: string, parent: string): Record
  {
    map["object_id" := Str(id), "parent_id" := Str(parent)]
  }

  function Example(): seq<Record>
  {
    [Layer("1", "0"), Layer("2", "1"), Layer("3", "1"), Layer("4", "2")]
  }

  /** Depth below layer 1; the top-level parent id "0" ranks above everything. */
  function ExampleRank(v: Value): nat
  {
    if v == Str("0") then 4 else if v == Str("1") then 3 else if v == Str("2") then 2 else 1
  }

  lemma ExampleRanked()
    ensures Ranked(Str("1"), Example(), ExampleRank)
  {
    var all := Example();
    forall r | r in all && ExampleRank(ParentId(r)) <= ExampleRank(Str("1"))
      ensures ExampleRank(ObjectId(r)) < ExampleRank(ParentId(r))
    {
      assert r == all[0] || r == all[1] || r == all[2] || r == all[3];
    }
  }

  lemma ChildrenOfOne()
    ensures DirectChildren(Str("1"), Example()) == [Layer("2", "1"), Layer("3", "1")]
  {
    var all := Example();
    assert all[1..][1..][1..][1..] == [];
  }

  lemma ChildrenOfTwo()
    ensures DirectChildren(Str("2"), Example()) == [Layer("4", "2")]
  {
    var all := Example();
    assert all[1..][1..][1..][1..] == [];
  }

  lemma ChildrenOfThree()
    ensures DirectChildren(Str("3"), Example()) == []
  {
    var all := Example();
    assert all[1..][1..][1..][1..] == [];
  }

  lemma ChildrenOfFour()
    ensures DirectChildren(Str("4"), Example()) == []
  {
    var all := Example();
    assert all[1..][1..][1..][1..] == [];
  }

  /** A layer without children gets `children: undefined`. */
  lemma LeafLayer(all: seq<Record>, rank: Value -> nat, id: string, parent: string)
    requires Ranked(Str(id), all, rank)
    requires DirectChildren(Str(id), all) == []
    ensures BuildChild(Layer(id, parent), all, rank) == Layer(id, parent)["children" := Undefined]
  {
    assert ObjectId(Layer(id, parent)) == Str(id);
  }

  /** The `i`-th node built below `p` is built from the `i`-th direct child of `p`. */
  lemma TreeElement(p: Value, all: seq<Record>, rank: Value -> nat, i: nat)
    requires Ranked(p, all, rank)
    requires i < |DirectChildren(p, all)|
    ensures Ranked(ObjectId(DirectChildren(p, all)[i]), all, rank)
    ensures BuildTree(p, all, rank)[i] == BuildChild(DirectChildren(p, all)[i], all, rank)
  {
    var kids := DirectChildren(p, all);
    assert kids[i] in kids;
    RankedChild(p, all, rank, kids[i]);
  }

  lemma OneChild(p: Value, all: seq<Record>, rank: Value -> nat, c: Record)
    requires Ranked(p, all, rank)
    requires DirectChildren(p, all) == [c]
    ensures Ranked(ObjectId(c), all, rank)
    ensures BuildTree(p, all, rank) == [BuildChild(c, all, rank)]
  {
    TreeElement(p, all, rank, 0);
    assert BuildTree(p, all, rank) == [BuildTree(p, all, rank)[0]];
  }

  lemma TwoChildren(p: Value, all: seq<Record>, rank: Value -> nat, c: Record, d: Record)
    requires Ranked(p, all, rank)
    requires DirectChildren(p, all) == [c, d]
    ensures Ranked(ObjectId(c), all, rank) && Ranked(ObjectId(d), all, rank)
    ensures BuildTree(p, all, rank) == [BuildChild(c, all, rank), BuildChild(d, all, rank)]
  {
    TreeElement(p, all, rank, 0);
    TreeElement(p, all, rank, 1);
    PairOf(BuildTree(p, all, rank), BuildChild(c, all, rank), BuildChild(d, all, rank));
  }

  lemma PairOf(t: seq<Record>, x: Record, y: Record)
    requires |t| == 2 && t[0] == x && t[1] == y
    ensures t == [x, y]
  {
  }

  /** Layer 2 holds layer 4, which has no children of its own. */
  lemma LayerTwo(all: seq<Record>, rank: Value -> nat)
    requires Ranked(Str("2"), all, rank)
    requires DirectChildren(Str("2"), all) == [Layer("4", "2")]
    requires DirectChildren(Str("4"), all) == []
    ensures BuildChild(Layer("2", "1"), all, rank)
              == Layer("2", "1")["children" := Arr([Obj(Layer("4", "2")["children" := Undefined])])]
  {
    assert ObjectId(Layer("2", "1")) == Str("2");
    OneChild(Str("2"), all, rank, Layer("4", "2"));
    LeafLayer(all, rank, "4", "2");
    var sub := BuildTree(Str("2"), all, rank);
    assert sub == [Layer("4", "2")["children" := Undefined]];
    assert ChildrenField(sub) == Arr([Obj(Layer("4", "2")["children" := Undefined])]);
  }

  /** Whatever else `all` holds, these direct children determine the tree below layer 1. */
  lemma ShapeFromChildren(all: seq<Record>, rank: Value -> nat)
    requires Ranked(Str("1"), all, rank)
    requires DirectChildren(Str("1"), all) == [Layer("2", "1"), Layer("3", "1")]
    requires DirectChildren(Str("2"), all) == [Layer("4", "2")]
    requires DirectChildren(Str("3"), all) == []
    requires DirectChildren(Str("4"), all) == []
    ensures BuildTree(Str("1"), all, rank) == [
              Layer("2", "1")["children" := Arr([Obj(Layer("4", "2")["children" := Undefined])])],
              Layer("3", "1")["children" := Undefined]]
  {
    TwoChildren(Str("1"), all, rank, Layer("2", "1"), Layer("3", "1"));
    assert ObjectId(Layer("2", "1")) == Str("2");
    LayerTwo(all, rank);
    LeafLayer(all, rank, "3", "1");
  }

  /** Built below layer 1: layer 2 holding layer 4, then layer 3; layers 3 and 4
      have `children: undefined`. */
  lemma SubtreeShape()
    ensures Ranked(Str("1"), Example(), ExampleRank)
    ensures BuildTree(Str("1"), Example(), ExampleRank) == [
              Layer("2", "1")["children" := Arr([Obj(Layer("4", "2")["children" := Undefined])])],
              Layer("3", "1")["children" := Undefined]]
  {
    ExampleRanked();
    ChildrenOfOne();
    ChildrenOfTwo();
    ChildrenOfThree();
    ChildrenOfFour();
    ShapeFromChildren(Example(), ExampleRank);
  }

  /** Asking for an object id no record has yields "not found", not a partial tree. */
  lemma NotFoundExample(rank: Value -> nat)
    ensures FindByObjectId("9", Example()).None?
    ensures GetAnnotationByObjectId("9", Example(), rank) == None
  {
    var all := Example();
    forall j | 0 <= j < |all| ensures ObjectId(all[j]) != Str("9") {
      assert j == 0 || j == 1 || j == 2 || j == 3;
    }
  }

  /** A list with a self-parented record, where no record has the requested id:
      the lookup fails before any tree is built, so the cycle does not matter. */
  lemma NotFoundInCyclicList(rank: Value -> nat)
    ensures !Ranked(Str("Z"), [Layer("A", "Z"), Layer("A", "A")], rank)
    ensures GetAnnotationByObjectId("Z", [Layer("A", "Z"), Layer("A", "A")], rank) == None
  {
    var all := [Layer("A", "Z"), Layer("A", "A")];
    assert ObjectId(all[0]) != Str("Z") && ObjectId(all[1]) != Str("Z");
    CycleRulesOutRank(Str("A"), all, rank, [all[1]]);
  }

  function Frame(): Record
  {
    map["name" := Str("Frame"), "symbolId" := Str("s-1"), "fills" := Arr([]),
        "css" := Arr([Str("width: 10px;")]), "children" := Undefined]
  }

  lemma FramePruned()
    ensures Pruned(Frame()) == map["name" := Str("Frame"), "css" := Arr([Str("width: 10px;")]), "children" := Undefined]
  {
    var n := Frame();
    var expected := map["name" := Str("Frame"), "css" := Arr([Str("width: 10px;")]), "children" := Undefined];
    assert "symbolId" == Denylist[3];
    assert "name" !in Denylist && "css" !in Denylist && "children" !in Denylist;
    assert n.Keys == {"name", "symbolId", "fills", "css", "children"};
    assert Pruned(n).Keys == expected.Keys;
  }

  /** A denylisted field and an empty array disappear; `children: undefined` stays. */
  lemma CleanExample()
    ensures IsNode(Obj(Frame()))
    ensures Clean(Frame()) == map["name" := Str("Frame"), "css" := Arr([Str("width: 10px;")]), "children" := Undefined]
  {
    FramePruned();
  }
}
