/** get_tree and assignValuesForBars (Skyrim.js): the selected characters
    grouped into a four-level tree (the root "Skyrim", one node per
    location, one node per value of the grouping attribute, one leaf per
    character), and the per-node total that sizes the bars. */
module SkyrimTree {
  import opened JsBuiltins
  import opened DataCleaning
  import opened D3Group

  /** The attributes the grouping buttons can choose. */
  datatype GroupingAttribute = Race | Class | Skill | Aggression | Morality

  /** The stats the stat buttons can choose. */
  datatype Stat = Health | Magicka | Stamina

  /** `character[groupingSpecifier]`. */
  function GroupValue(c: Character, g: GroupingAttribute): string
  {
    match g
    case Race => c.race
    case Class => c.characterClass
    case Skill => c.skill
    case Aggression => c.aggression
    case Morality => c.morality
  }

  /** `character[statsSpecifier]`; `None` is NaN. */
  function StatValue(c: Character, s: Stat): Option<int>
  {
    match s
    case Health => c.health
    case Magicka => c.magicka
    case Stamina => c.stamina
  }

  /** The first-level grouping key, `elem => elem.location`. */
  function ByLocation(c: Character): string
  {
    c.location
  }

  /** The second-level grouping key, `elem => elem[groupingSpecifier]`. */
  function ByAttribute(g: GroupingAttribute): Character -> string
  {
    c => GroupValue(c, g)
  }

  /** A node of the tree. Internal nodes have no `value` until the bar
      graph assigns one; a leaf's `value` is the character's stat, `None`
      for NaN. Leaves have no children. */
  datatype TreeNode = TreeNode(name: string, level: nat, isLeaf: bool, children: seq<TreeNode>, value: Option<int>)

  function LeafNode(c: Character, s: Stat): TreeNode
  {
    TreeNode(c.name, 3, true, [], StatValue(c, s))
  }

  function GroupNode(group: string, leafs: seq<Character>, s: Stat): TreeNode
  {
    TreeNode(group, 2, false, LeafNodes(leafs, s), None)
  }

  function CityNode(city: string, elems: seq<Character>, g: GroupingAttribute, s: Stat): TreeNode
  {
    TreeNode(city, 1, false, GroupNodes(Group(elems, ByAttribute(g)), s), None)
  }

  /** `leafs.map(...)`: one leaf per character, in order. */
  function LeafNodes(leafs: seq<Character>, s: Stat): (r: seq<TreeNode>)
    ensures |r| == |leafs|
    ensures forall k :: 0 <= k < |leafs| ==> r[k] == LeafNode(leafs[k], s)
  {
    if leafs == [] then [] else [LeafNode(leafs[0], s)] + LeafNodes(leafs[1..], s)
  }

  /** `Array.from(groups, ...)` at the second level. */
  function GroupNodes(groups: seq<(string, seq<Character>)>, s: Stat): (r: seq<TreeNode>)
    ensures |r| == |groups|
    ensures forall j :: 0 <= j < |groups| ==> r[j] == GroupNode(groups[j].0, groups[j].1, s)
  {
    if groups == [] then []
    else [GroupNode(groups[0].0, groups[0].1, s)] + GroupNodes(groups[1..], s)
  }

  /** `Array.from(cities, ...)` at the first level. */
  function CityNodes(cities: seq<(string, seq<Character>)>, g: GroupingAttribute, s: Stat): (r: seq<TreeNode>)
    ensures |r| == |cities|
    ensures forall i :: 0 <= i < |cities| ==> r[i] == CityNode(cities[i].0, cities[i].1, g, s)
  {
    if cities == [] then []
    else [CityNode(cities[0].0, cities[0].1, g, s)] + CityNodes(cities[1..], g, s)
  }

  /** get_tree, with the grouping attribute and the stat as parameters. */
  function GetTree(characters: seq<Character>, g: GroupingAttribute, s: Stat): TreeNode
  {
    TreeNode("Skyrim", 0, false, CityNodes(Group(characters, ByLocation), g, s), None)
  }

  /** A node at depth `d` has level `d`, is a leaf exactly at depth 3, has
      no children when it is a leaf, and so on below it. */
  predicate WellLeveled(n: TreeNode, d: nat)
    decreases n
  {
    && n.level == d
    && (n.isLeaf <==> d == 3)
    && (n.isLeaf ==> n.children == [])
    && forall c :: c in n.children ==> WellLeveled(c, d + 1)
  }

  /** A group node sits at level 2 with its leaves at level 3. */
  lemma GroupNodeWellLeveled(group: string, leafs: seq<Character>, s: Stat)
    ensures WellLeveled(GroupNode(group, leafs, s), 2)
  {
    forall leaf | leaf in LeafNodes(leafs, s) ensures WellLeveled(leaf, 3) {
      var k :| 0 <= k < |leafs| && LeafNodes(leafs, s)[k] == leaf;
    }
  }

  /** A location node sits at level 1 with its groups at level 2. */
  lemma CityNodeWellLeveled(city: string, elems: seq<Character>, g: GroupingAttribute, s: Stat)
    ensures WellLeveled(CityNode(city, elems, g, s), 1)
  {
    var groups := Group(elems, ByAttribute(g));
    forall group | group in GroupNodes(groups, s) ensures WellLeveled(group, 2) {
      var j :| 0 <= j < |groups| && GroupNodes(groups, s)[j] == group;
      GroupNodeWellLeveled(groups[j].0, groups[j].1, s);
    }
  }

  /** The root is "Skyrim" at level 0, and every level is numbered by its
      depth, with leaves exactly at depth 3. */
  lemma GetTreeWellLeveled(characters: seq<Character>, g: GroupingAttribute, s: Stat)
    ensures GetTree(characters, g, s).name == "Skyrim"
    ensures WellLeveled(GetTree(characters, g, s), 0)
  {
    var cities := Group(characters, ByLocation);
    forall city | city in CityNodes(cities, g, s) ensures WellLeveled(city, 1) {
      var i :| 0 <= i < |cities| && CityNodes(cities, g, s)[i] == city;
      CityNodeWellLeveled(cities[i].0, cities[i].1, g, s);
    }
  }

  /** The location nodes are the distinct locations, in order of first
      appearance, and the attribute nodes under a location are the distinct
      attribute values of the characters there, in order of first
      appearance. */
  lemma GetTreeNames(characters: seq<Character>, g: GroupingAttribute, s: Stat)
    ensures var root := GetTree(characters, g, s);
      && |root.children| == |Keys(characters, ByLocation)|
      && (forall i :: 0 <= i < |root.children| ==> root.children[i].name == Keys(characters, ByLocation)[i])
      && (forall i, j :: 0 <= i < j < |root.children| ==> root.children[i].name != root.children[j].name)
    ensures var root := GetTree(characters, g, s);
      forall i :: 0 <= i < |root.children| ==>
        var here := Members(characters, ByLocation, root.children[i].name);
        && |root.children[i].children| == |Keys(here, ByAttribute(g))|
        && (forall j :: 0 <= j < |root.children[i].children| ==>
              root.children[i].children[j].name == Keys(here, ByAttribute(g))[j])
        && (forall j, k :: 0 <= j < k < |root.children[i].children| ==>
              root.children[i].children[j].name != root.children[i].children[k].name)
  {
    KeysDistinct(characters, ByLocation);
    var root := GetTree(characters, g, s);
    var cities := Group(characters, ByLocation);
    forall i | 0 <= i < |root.children|
      ensures var here := Members(characters, ByLocation, root.children[i].name);
        && |root.children[i].children| == |Keys(here, ByAttribute(g))|
        && (forall j :: 0 <= j < |root.children[i].children| ==>
              root.children[i].children[j].name == Keys(here, ByAttribute(g))[j])
        && (forall j, k :: 0 <= j < k < |root.children[i].children| ==>
              root.children[i].children[j].name != root.children[i].children[k].name)
    {
      assert root.children[i] == CityNode(cities[i].0, cities[i].1, g, s);
      CityNodeNames(cities[i].0, cities[i].1, g, s);
    }
  }

  /** The attribute nodes under a location node are the distinct attribute
      values of its characters, in order of first appearance. */
  lemma CityNodeNames(city: string, elems: seq<Character>, g: GroupingAttribute, s: Stat)
    ensures var n := CityNode(city, elems, g, s);
      && n.name == city
      && |n.children| == |Keys(elems, ByAttribute(g))|
      && (forall j :: 0 <= j < |n.children| ==> n.children[j].name == Keys(elems, ByAttribute(g))[j])
      && (forall j, k :: 0 <= j < k < |n.children| ==> n.children[j].name != n.children[k].name)
  {
    KeysDistinct(elems, ByAttribute(g));
  }

  /** No location node and no attribute node is empty. */
  lemma GetTreeNoEmptyGroups(characters: seq<Character>, g: GroupingAttribute, s: Stat)
    ensures var root := GetTree(characters, g, s);
      forall i :: 0 <= i < |root.children| ==>
        && |root.children[i].children| > 0
        && forall j :: 0 <= j < |root.children[i].children| ==> |root.children[i].children[j].children| > 0
  {
    var root := GetTree(characters, g, s);
    var cities := Group(characters, ByLocation);
    forall i | 0 <= i < |root.children|
      ensures |root.children[i].children| > 0
      ensures forall j :: 0 <= j < |root.children[i].children| ==> |root.children[i].children[j].children| > 0
    {
      GroupsNonEmpty(characters, ByLocation, cities[i].0);
      var here := cities[i].1;
      KeyListed(here, ByAttribute(g), 0);
      forall j | 0 <= j < |root.children[i].children| ensures |root.children[i].children[j].children| > 0 {
        GroupsNonEmpty(here, ByAttribute(g), Keys(here, ByAttribute(g))[j]);
      }
    }
  }

  /** Every leaf comes from a character of the input with the location and
      the attribute value of the nodes above it, and carries that
      character's name and stat. */
  lemma LeafOrigin(characters: seq<Character>, g: GroupingAttribute, s: Stat, i: nat, j: nat, k: nat)
    returns (c: Character)
    requires i < |GetTree(characters, g, s).children|
    requires j < |GetTree(characters, g, s).children[i].children|
    requires k < |GetTree(characters, g, s).children[i].children[j].children|
    ensures var city := GetTree(characters, g, s).children[i];
      && c in characters
      && c.location == city.name
      && GroupValue(c, g) == city.children[j].name
      && city.children[j].children[k] == LeafNode(c, s)
  {
    var cities := Group(characters, ByLocation);
    var here := cities[i].1;
    var groups := Group(here, ByAttribute(g));
    c := groups[j].1[k];
    MembersOf(here, ByAttribute(g), groups[j].0, c);
    MembersOf(characters, ByLocation, cities[i].0, c);
  }

  /** The leaves below `n`, left to right. */
  function Leaves(n: TreeNode): seq<TreeNode>
    decreases n, 1
  {
    if n.isLeaf then [n] else LeavesOf(n.children)
  }

  function LeavesOf(ns: seq<TreeNode>): seq<TreeNode>
    decreases ns, 0
  {
    if ns == [] then [] else Leaves(ns[0]) + LeavesOf(ns[1..])
  }

  /** The characters in the order their leaves appear under the location
      entries `cities`. */
  function Arranged(cities: seq<(string, seq<Character>)>, g: GroupingAttribute): seq<Character>
  {
    if cities == [] then [] else Values(Group(cities[0].1, ByAttribute(g))) + Arranged(cities[1..], g)
  }

  lemma {:induction false} LeafNodesAppend(a: seq<Character>, b: seq<Character>, s: Stat)
    ensures LeafNodes(a + b, s) == LeafNodes(a, s) + LeafNodes(b, s)
  {
    if a != [] {
      assert (a + b)[0] == a[0];
      assert (a + b)[1..] == a[1..] + b;
      LeafNodesAppend(a[1..], b, s);
      calc {
        LeafNodes(a + b, s);
        [LeafNode(a[0], s)] + LeafNodes(a[1..] + b, s);
        [LeafNode(a[0], s)] + (LeafNodes(a[1..], s) + LeafNodes(b, s));
        ([LeafNode(a[0], s)] + LeafNodes(a[1..], s)) + LeafNodes(b, s);
      }
    } else {
      assert a + b == b;
    }
  }

  lemma {:induction false} LeavesOfAppend(a: seq<TreeNode>, b: seq<TreeNode>)
    ensures LeavesOf(a + b) == LeavesOf(a) + LeavesOf(b)
  {
    if a != [] {
      LeavesOfAppend(a[1..], b);
      assert (a + b)[1..] == a[1..] + b;
    } else {
      assert a + b == b;
    }
  }

  lemma {:induction false} LeavesOfLeafNodes(leafs: seq<Character>, s: Stat)
    ensures LeavesOf(LeafNodes(leafs, s)) == LeafNodes(leafs, s)
  {
    if leafs != [] {
      LeavesOfLeafNodes(leafs[1..], s);
    }
  }

  lemma {:induction false} LeavesOfGroupNodes(groups: seq<(string, seq<Character>)>, s: Stat)
    ensures LeavesOf(GroupNodes(groups, s)) == LeafNodes(Values(groups), s)
  {
    if groups != [] {
      LeavesOfGroupNodes(groups[1..], s);
      LeavesOfLeafNodes(groups[0].1, s);
      LeafNodesAppend(groups[0].1, Values(groups[1..]), s);
    }
  }

  lemma {:induction false} LeavesOfCityNodes(cities: seq<(string, seq<Character>)>, g: GroupingAttribute, s: Stat)
    ensures LeavesOf(CityNodes(cities, g, s)) == LeafNodes(Arranged(cities, g), s)
  {
    if cities != [] {
      LeavesOfCityNodes(cities[1..], g, s);
      LeavesOfGroupNodes(Group(cities[0].1, ByAttribute(g)), s);
      LeafNodesAppend(Values(Group(cities[0].1, ByAttribute(g))), Arranged(cities[1..], g), s);
    }
  }

  lemma {:induction false} ArrangedPermutes(cities: seq<(string, seq<Character>)>, g: GroupingAttribute)
    ensures multiset(Arranged(cities, g)) == multiset(Values(cities))
  {
    if cities != [] {
      ArrangedPermutes(cities[1..], g);
      GroupPartitions(cities[0].1, ByAttribute(g));
    }
  }

  /** Every input character appears as exactly one leaf, so there are as
      many leaves as characters; each leaf carries its character's name and
      stat. */
  lemma GetTreeLeaves(characters: seq<Character>, g: GroupingAttribute, s: Stat)
    ensures var order := Arranged(Group(characters, ByLocation), g);
      && Leaves(GetTree(characters, g, s)) == LeafNodes(order, s)
      && multiset(order) == multiset(characters)
    ensures |Leaves(GetTree(characters, g, s))| == |characters|
  {
    var order := Arranged(Group(characters, ByLocation), g);
    LeavesOfCityNodes(Group(characters, ByLocation), g, s);
    ArrangedPermutes(Group(characters, ByLocation), g);
    GroupPartitions(characters, ByLocation);
    assert |multiset(order)| == |multiset(characters)|;
  }

  /** What a leaf adds to a bar: its value, or 1 when it is NaN. */
  function Weight(leaf: TreeNode): int
  {
    match leaf.value
    case Some(v) => v
    case None => 1
  }

  /** assignValuesForBars: a leaf's weight, or the sum over the children. */
  function Aggregate(n: TreeNode): int
    decreases n, 1
  {
    if n.isLeaf then Weight(n) else ChildrenSum(n.children)
  }

  /** `children.reduce((acc, child) => acc + assignValuesForBars(child), 0)`,
      a left fold. */
  function ChildrenSum(ns: seq<TreeNode>): int
    decreases ns, 0
  {
    if ns == [] then 0 else ChildrenSum(ns[..|ns| - 1]) + Aggregate(ns[|ns| - 1])
  }

  /** The weights of `leaves`, added up. */
  function WeightSum(leaves: seq<TreeNode>): int
  {
    if leaves == [] then 0 else Weight(leaves[0]) + WeightSum(leaves[1..])
  }

  lemma {:induction false} WeightSumAppend(a: seq<TreeNode>, b: seq<TreeNode>)
    ensures WeightSum(a + b) == WeightSum(a) + WeightSum(b)
  {
    if a != [] {
      WeightSumAppend(a[1..], b);
      assert (a + b)[1..] == a[1..] + b;
    } else {
      assert a + b == b;
    }
  }

  /** A node's aggregate is the total weight of the leaves below it. */
  lemma {:induction false} AggregateIsLeafSum(n: TreeNode)
    ensures Aggregate(n) == WeightSum(Leaves(n))
    decreases n, 1
  {
    if !n.isLeaf {
      ChildrenSumIsLeafSum(n.children);
    }
  }

  lemma {:induction false} ChildrenSumIsLeafSum(ns: seq<TreeNode>)
    ensures ChildrenSum(ns) == WeightSum(LeavesOf(ns))
    decreases ns, 0
  {
    if ns != [] {
      var init, last := ns[..|ns| - 1], ns[|ns| - 1];
      assert LeavesOf([last]) == Leaves(last) by {
        assert [last][1..] == [];
      }
      calc {
        ChildrenSum(ns);
        ChildrenSum(init) + Aggregate(last);
        { ChildrenSumIsLeafSum(init); AggregateIsLeafSum(last); }
        WeightSum(LeavesOf(init)) + WeightSum(Leaves(last));
        { WeightSumAppend(LeavesOf(init), Leaves(last)); }
        WeightSum(LeavesOf(init) + LeavesOf([last]));
        { LeavesOfAppend(init, [last]); assert ns == init + [last]; }
        WeightSum(LeavesOf(ns));
      }
    }
  }

  /** The weights of the characters' leaves, added up. */
  function StatTotal(characters: seq<Character>, s: Stat): int
  {
    if characters == [] then 0 else Weight(LeafNode(characters[0], s)) + StatTotal(characters[1..], s)
  }

  lemma {:induction false} StatTotalAppend(a: seq<Character>, b: seq<Character>, s: Stat)
    ensures StatTotal(a + b, s) == StatTotal(a, s) + StatTotal(b, s)
  {
    if a != [] {
      StatTotalAppend(a[1..], b, s);
      assert (a + b)[1..] == a[1..] + b;
    } else {
      assert a + b == b;
    }
  }

  /** Taking one character out of the list takes its weight out of the total. */
  lemma StatTotalRemove(characters: seq<Character>, p: nat, s: Stat)
    requires p < |characters|
    ensures StatTotal(characters, s) ==
      Weight(LeafNode(characters[p], s)) + StatTotal(characters[..p] + characters[p + 1..], s)
  {
    var before, after := characters[..p], characters[p + 1..];
    assert characters == before + ([characters[p]] + after);
    assert ([characters[p]] + after)[1..] == after;
    StatTotalAppend(before, [characters[p]] + after, s);
    StatTotalAppend(before, after, s);
  }

  /** An index at which `c` occurs in `characters`. */
  lemma Occurrence(characters: seq<Character>, c: Character) returns (p: nat)
    requires c in multiset(characters)
    ensures p < |characters| && characters[p] == c
  {
    p :| 0 <= p < |characters| && characters[p] == c;
  }

  lemma MultisetRemove(characters: seq<Character>, p: nat)
    requires p < |characters|
    ensures multiset(characters[..p] + characters[p + 1..]) == multiset(characters) - multiset{characters[p]}
  {
    assert characters == characters[..p] + [characters[p]] + characters[p + 1..];
  }

  /** Taking the first of `a` and an equal element of its permutation `b`
      leaves two permutations of each other. */
  lemma TailPermutation(a: seq<Character>, b: seq<Character>, p: nat)
    requires multiset(a) == multiset(b) && a != []
    requires p < |b| && b[p] == a[0]
    ensures multiset(a[1..]) == multiset(b[..p] + b[p + 1..])
  {
    calc {
      multiset(a[1..]);
      { assert a[..0] + a[1..] == a[1..]; MultisetRemove(a, 0); }
      multiset(a) - multiset{a[0]};
      multiset(b) - multiset{b[p]};
      { MultisetRemove(b, p); }
      multiset(b[..p] + b[p + 1..]);
    }
  }

  /** The total does not depend on the order of the characters. */
  lemma {:induction false} StatTotalPermutation(a: seq<Character>, b: seq<Character>, s: Stat)
    requires multiset(a) == multiset(b)
    ensures StatTotal(a, s) == StatTotal(b, s)
    decreases |a|
  {
    if a != [] {
      assert a[0] in multiset(b) by { assert a[0] in multiset(a); }
      var p := Occurrence(b, a[0]);
      var rest := b[..p] + b[p + 1..];
      TailPermutation(a, b, p);
      calc {
        StatTotal(a, s);
        Weight(LeafNode(a[0], s)) + StatTotal(a[1..], s);
        { StatTotalPermutation(a[1..], rest, s); }
        Weight(LeafNode(b[p], s)) + StatTotal(rest, s);
        { StatTotalRemove(b, p, s); }
        StatTotal(b, s);
      }
    } else {
      assert |b| == |multiset(b)| == |multiset(a)| == 0;
    }
  }

  lemma {:induction false} WeightSumOfLeafNodes(characters: seq<Character>, s: Stat)
    ensures WeightSum(LeafNodes(characters, s)) == StatTotal(characters, s)
  {
    if characters != [] {
      WeightSumOfLeafNodes(characters[1..], s);
    }
  }

  /** The root's aggregate counts every character once, with NaN as 1. */
  lemma GetTreeTotal(characters: seq<Character>, g: GroupingAttribute, s: Stat)
    ensures Aggregate(GetTree(characters, g, s)) == StatTotal(characters, s)
  {
    var order := Arranged(Group(characters, ByLocation), g);
    AggregateIsLeafSum(GetTree(characters, g, s));
    GetTreeLeaves(characters, g, s);
    WeightSumOfLeafNodes(order, s);
    StatTotalPermutation(order, characters, s);
  }

  /** A group with leaves 10, NaN and 30 adds up to 41. */
  lemma AggregateExample()
    ensures Aggregate(TreeNode("", 2, false, [TreeNode("", 3, true, [], Some(10)),
                                              TreeNode("", 3, true, [], None),
                                              TreeNode("", 3, true, [], Some(30))], None)) == 41
  {
    var l1, l2, l3 := TreeNode("", 3, true, [], Some(10)), TreeNode("", 3, true, [], None), TreeNode("", 3, true, [], Some(30));
    var ns := [l1, l2, l3];
    assert ns[..2] == [l1, l2];
    assert [l1, l2][..1] == [l1];
    assert [l1][..0] == [];
    assert ChildrenSum([l1]) == 10;
    assert ChildrenSum([l1, l2]) == 11;
  }
}
