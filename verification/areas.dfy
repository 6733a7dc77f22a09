/**
 * `area_tree` of the `jma` package: the forest of forecast areas built from
 * the five keyed levels of `area.json`.
 *
 * A level is a JSON object; it is modelled as the sequence of its items in
 * the dict's iteration order. The nodes are values: a node's children are
 * complete when it is built (only the node's own loop iteration appends to
 * its list), so sharing Python objects and copying values agree.
 */
module JmaAreas {
  import opened Wrappers

  /** One item `k: v` of a level: `v['name']` and the optional `v['children']`. */
  datatype Entry = Entry(key: string, name: string, children: Option<seq<string>>)

  type Level = seq<Entry>

  /** The decoded `area.json`: level name to level. */
  type Area = map<string, Level>

  /** `AreaNode`: key, name and the child nodes in order. */
  datatype AreaNode = AreaNode(key: string, name: string, children: seq<AreaNode>)

  /** The `KeyError`s `area_tree` can raise. */
  datatype AreaError = MissingLevel(level: string) | MissingChild(child: string)

  /** The order in which the levels are built; the last one is returned. */
  const LEVELS: seq<string> := ["class20s", "class15s", "class10s", "offices", "centers"]

  /** `v.get('children', [])`. */
  function ChildrenOf(e: Entry): seq<string> {
    match e.children
    case Some(cs) => cs
    case None => []
  }

  // ---------------------------------------------------------------------
  // The algorithm as written

  /**
   * The inner `for child in ...` loop: skip the node's own key, look every
   * other child up in `node_map`, fail on the first one that is missing.
   */
  function ResolveChildren(nodeMap: map<string, AreaNode>, key: string, cs: seq<string>)
    : (r: Result<seq<AreaNode>, AreaError>)
    ensures r.Failure? ==>
      r.error.MissingChild? && r.error.child in cs && r.error.child != key && r.error.child !in nodeMap
    ensures r.Success? ==> |r.value| <= |cs|
    ensures key !in cs && r.Success? ==> |r.value| == |cs|
  {
    if cs == [] then Success([])
    else if cs[0] == key then ResolveChildren(nodeMap, key, cs[1..])
    else if cs[0] !in nodeMap then Failure(MissingChild(cs[0]))
    else
      match ResolveChildren(nodeMap, key, cs[1..])
      case Success(rest) => Success([nodeMap[cs[0]]] + rest)
      case Failure(err) => Failure(err)
  }

  /**
   * `create_node(data)`: one node per item, in order; each is entered in
   * `node_map`, replacing an earlier node of the same key. The source enters
   * the node before resolving its children, this body after; the two orders
   * agree because resolving skips the node's own key, the only lookup the
   * new entry could answer. Returns the final `node_map` and the nodes.
   */
  function CreateNodes(nodeMap: map<string, AreaNode>, level: Level)
    : (r: Result<(map<string, AreaNode>, seq<AreaNode>), AreaError>)
    ensures r.Failure? ==> r.error.MissingChild?
    ensures r.Success? ==> |r.value.1| == |level|
    decreases |level|
  {
    if level == [] then Success((nodeMap, []))
    else
      var e := level[0];
      match ResolveChildren(nodeMap, e.key, ChildrenOf(e))
      case Failure(err) => Failure(err)
      case Success(kids) =>
        var node := AreaNode(e.key, e.name, kids);
        match CreateNodes(nodeMap[e.key := node], level[1..])
        case Failure(err) => Failure(err)
        case Success(res) => Success((res.0, [node] + res.1))
  }

  /** The five `create_node(area[...])` calls, in order; keeps the last level's nodes. */
  function BuildLevels(area: Area, nodeMap: map<string, AreaNode>, names: seq<string>,
                       last: seq<AreaNode>)
    : (r: Result<(map<string, AreaNode>, seq<AreaNode>), AreaError>)
    ensures r.Failure? && r.error.MissingLevel? ==> r.error.level in names && r.error.level !in area
    ensures names != [] && names[0] !in area ==> r == Failure(MissingLevel(names[0]))
    decreases |names|
  {
    if names == [] then Success((nodeMap, last))
    else if names[0] !in area then Failure(MissingLevel(names[0]))
    else
      match CreateNodes(nodeMap, area[names[0]])
      case Failure(err) => Failure(err)
      case Success(res) => BuildLevels(area, res.0, names[1..], res.1)
  }

  /** `area_tree(area)`: the nodes of `area['centers']`. */
  function AreaTree(area: Area): (r: Result<seq<AreaNode>, AreaError>)
    ensures r.Failure? && r.error.MissingLevel? ==> r.error.level in LEVELS && r.error.level !in area
  {
    match BuildLevels(area, map[], LEVELS, [])
    case Success(res) => Success(res.1)
    case Failure(err) => Failure(err)
  }

  // ---------------------------------------------------------------------
  // An independent description over the flattened levels

  predicate HasLevels(area: Area) {
    && "class20s" in area && "class15s" in area && "class10s" in area
    && "offices" in area && "centers" in area
  }

  /** The items of the levels `names`, one level after the other. */
  function FlatFrom(area: Area, names: seq<string>): Level
    requires forall i :: 0 <= i < |names| ==> names[i] in area
  {
    if names == [] then [] else area[names[0]] + FlatFrom(area, names[1..])
  }

  /** All items of the five levels, in the order they are processed. */
  function Flat(area: Area): Level
    requires HasLevels(area)
  {
    LevelsPresent(area);
    FlatFrom(area, LEVELS)
  }

  lemma LevelsPresent(area: Area)
    requires HasLevels(area)
    ensures forall i :: 0 <= i < |LEVELS| ==> LEVELS[i] in area
  {
  }

  /** Where `centers` begins in `Flat(area)`. */
  function CentersOffset(area: Area): nat
    requires HasLevels(area)
  {
    |area["class20s"]| + |area["class15s"]| + |area["class10s"]| + |area["offices"]|
  }

  /** The items level by level; `centers` comes last. */
  lemma FlatOfLevels(area: Area)
    requires HasLevels(area)
    ensures Flat(area) ==
      area["class20s"] + area["class15s"] + area["class10s"] + area["offices"] + area["centers"]
    ensures CentersOffset(area) + |area["centers"]| == |Flat(area)|
    ensures Flat(area)[CentersOffset(area)..] == area["centers"]
  {
    LevelsPresent(area);
    var l4 := LEVELS[4..];
    assert l4[1..] == [];
    assert FlatFrom(area, l4) == area["centers"];
    assert LEVELS[3..][1..] == l4;
    assert LEVELS[2..][1..] == LEVELS[3..];
    assert LEVELS[1..][1..] == LEVELS[2..];
    var a, b, c, d := area["class20s"], area["class15s"], area["class10s"], area["offices"];
    assert FlatFrom(area, LEVELS[3..]) == d + area["centers"];
    assert FlatFrom(area, LEVELS[2..]) == c + (d + area["centers"]);
    assert FlatFrom(area, LEVELS[1..]) == b + (c + (d + area["centers"]));
    assert FlatFrom(area, LEVELS) == a + (b + (c + (d + area["centers"])));
    assert a + (b + (c + (d + area["centers"]))) == (a + b + c + d) + area["centers"];
  }

  /** `cs` without the occurrences of `key`, order kept. */
  function SkipSelf(cs: seq<string>, key: string): (r: seq<string>)
    ensures forall k :: 0 <= k < |r| ==> r[k] != key && r[k] in cs
    ensures |r| <= |cs|
  {
    if cs == [] then []
    else if cs[0] == key then SkipSelf(cs[1..], key)
    else [cs[0]] + SkipSelf(cs[1..], key)
  }

  /** Exactly the children other than `key` are kept; with no self-link nothing is dropped. */
  lemma {:induction false} SkipSelfKeeps(cs: seq<string>, key: string)
    ensures forall c :: c in SkipSelf(cs, key) <==> c in cs && c != key
    ensures key !in cs ==> SkipSelf(cs, key) == cs
    decreases |cs|
  {
    if cs != [] {
      SkipSelfKeeps(cs[1..], key);
      assert cs == [cs[0]] + cs[1..];
    }
  }

  /** Skipping distributes over concatenation, so the kept children stay in list order. */
  lemma {:induction false} SkipSelfAppend(a: seq<string>, b: seq<string>, key: string)
    ensures SkipSelf(a + b, key) == SkipSelf(a, key) + SkipSelf(b, key)
    decreases |a|
  {
    if a != [] {
      assert (a + b)[1..] == a[1..] + b;
      SkipSelfAppend(a[1..], b, key);
    } else {
      assert a + b == b;
    }
  }

  /** The children an item actually links to. */
  function Kids(e: Entry): seq<string> {
    SkipSelf(ChildrenOf(e), e.key)
  }

  /** Some item before position `i` has key `c`. */
  predicate DefinedBefore(flat: Level, i: nat, c: string)
    requires i <= |flat|
  {
    exists j :: 0 <= j < i && flat[j].key == c
  }

  /** Every key of `ks` is defined before position `i`. */
  predicate AllDefined(flat: Level, i: nat, ks: seq<string>)
    requires i <= |flat|
  {
    forall k :: 0 <= k < |ks| ==> DefinedBefore(flat, i, ks[k])
  }

  lemma AllDefinedCons(flat: Level, i: nat, c: string, ks: seq<string>)
    requires i <= |flat|
    ensures AllDefined(flat, i, [c] + ks) <==> DefinedBefore(flat, i, c) && AllDefined(flat, i, ks)
  {
    var cks := [c] + ks;
    assert cks[0] == c;
    assert forall k :: 0 <= k < |ks| ==> cks[k + 1] == ks[k];
    if DefinedBefore(flat, i, c) && AllDefined(flat, i, ks) {
      forall k | 0 <= k < |cks|
        ensures DefinedBefore(flat, i, cks[k])
      {
        if k > 0 {
          assert cks[k] == ks[k - 1];
        }
      }
    }
  }

  /** No item between `LastBefore(flat, n, c)` and `n` has key `c`. */
  lemma {:induction false} LastBeforeIsLast(flat: Level, n: nat, c: string, j: nat)
    requires n <= |flat| && DefinedBefore(flat, n, c)
    requires LastBefore(flat, n, c) < j < n
    ensures flat[j].key != c
  {
    if flat[n - 1].key != c {
      assert DefinedBefore(flat, n - 1, c) by {
        var i :| 0 <= i < n && flat[i].key == c;
        assert i < n - 1;
      }
      if j < n - 1 {
        LastBeforeIsLast(flat, n - 1, c, j);
      }
    }
  }

  /** Every item before position `n` links only to keys defined before it. */
  predicate Resolvable(flat: Level, n: nat)
    requires n <= |flat|
  {
    forall i, k :: 0 <= i < n && 0 <= k < |Kids(flat[i])| ==> DefinedBefore(flat, i, Kids(flat[i])[k])
  }

  /** The position of the last item before `n` with key `c`: the one `node_map[c]` holds. */
  function LastBefore(flat: Level, n: nat, c: string): (r: nat)
    requires n <= |flat| && DefinedBefore(flat, n, c)
    ensures r < n && flat[r].key == c
  {
    if flat[n - 1].key == c then n - 1
    else
      assert DefinedBefore(flat, n - 1, c) by {
        var j :| 0 <= j < n && flat[j].key == c;
        assert j < n - 1;
      }
      LastBefore(flat, n - 1, c)
  }

  /** A dangling link stays dangling in every longer prefix. */
  lemma UnresolvableLater(flat: Level, n: nat, p: nat)
    requires n <= p <= |flat| && !Resolvable(flat, n)
    ensures !Resolvable(flat, p)
  {
    var i, k :| 0 <= i < n && 0 <= k < |Kids(flat[i])| && !DefinedBefore(flat, i, Kids(flat[i])[k]);
  }

  /** The node item `i` denotes: its key and name, and the nodes of its kids. */
  function NodeAt(flat: Level, i: nat): (r: AreaNode)
    requires i < |flat|
    decreases i, 1
  {
    AreaNode(flat[i].key, flat[i].name, ChildrenAt(flat, i, Kids(flat[i])))
  }

  /**
   * The nodes the keys `ks` denote just before position `i`: the node of
   * the last earlier item with that key. A key no earlier item has denotes
   * nothing (the algorithm raises `KeyError` there).
   */
  function ChildrenAt(flat: Level, i: nat, ks: seq<string>): (r: seq<AreaNode>)
    requires i < |flat|
    ensures AllDefined(flat, i, ks) ==> |r| == |ks| && forall k :: 0 <= k < |ks| ==> r[k].key == ks[k]
    decreases i, 0, |ks|
  {
    if ks == [] then []
    else
      AllDefinedCons(flat, i, ks[0], ks[1..]);
      assert ks == [ks[0]] + ks[1..];
      var here := if DefinedBefore(flat, i, ks[0]) then [NodeAt(flat, LastBefore(flat, i, ks[0]))] else [];
      here + ChildrenAt(flat, i, ks[1..])
  }

  /** `nodes` are the nodes of the items from position `off` on, in order. */
  predicate Denotes(nodes: seq<AreaNode>, flat: Level, off: nat)
    requires off + |nodes| <= |flat|
  {
    forall j :: 0 <= j < |nodes| ==> nodes[j] == NodeAt(flat, off + j)
  }

  /** `node_map` after the first `n` items: keys seen so far, each to the node of its last item. */
  ghost predicate MapMatches(nodeMap: map<string, AreaNode>, flat: Level, n: nat)
    requires n <= |flat|
  {
    && Resolvable(flat, n)
    && (forall c :: c in nodeMap <==> DefinedBefore(flat, n, c))
    && (forall c :: c in nodeMap ==> nodeMap[c] == NodeAt(flat, LastBefore(flat, n, c)))
  }

  // ---------------------------------------------------------------------
  // The algorithm meets the description

  lemma {:induction false} ResolveChildrenMeaning(nodeMap: map<string, AreaNode>, flat: Level,
                                                 n: nat, cs: seq<string>)
    requires n < |flat| && MapMatches(nodeMap, flat, n)
    ensures ResolveChildren(nodeMap, flat[n].key, cs).Success? <==>
      AllDefined(flat, n, SkipSelf(cs, flat[n].key))
    ensures ResolveChildren(nodeMap, flat[n].key, cs).Success? ==>
      ResolveChildren(nodeMap, flat[n].key, cs).value == ChildrenAt(flat, n, SkipSelf(cs, flat[n].key))
    decreases |cs|, 1
  {
    var key := flat[n].key;
    if cs == [] {
    } else if cs[0] == key {
      ResolveChildrenMeaning(nodeMap, flat, n, cs[1..]);
      assert SkipSelf(cs, key) == SkipSelf(cs[1..], key);
    } else {
      ResolveChildrenLinked(nodeMap, flat, n, cs);
    }
  }

  /** The step of `ResolveChildrenMeaning` at a child other than the item itself. */
  lemma {:induction false} ResolveChildrenLinked(nodeMap: map<string, AreaNode>, flat: Level,
                                                n: nat, cs: seq<string>)
    requires n < |flat| && MapMatches(nodeMap, flat, n)
    requires cs != [] && cs[0] != flat[n].key
    ensures ResolveChildren(nodeMap, flat[n].key, cs).Success? <==>
      AllDefined(flat, n, SkipSelf(cs, flat[n].key))
    ensures ResolveChildren(nodeMap, flat[n].key, cs).Success? ==>
      ResolveChildren(nodeMap, flat[n].key, cs).value == ChildrenAt(flat, n, SkipSelf(cs, flat[n].key))
    decreases |cs|, 0
  {
    var key := flat[n].key;
    ResolveChildrenMeaning(nodeMap, flat, n, cs[1..]);
    var ks := SkipSelf(cs, key);
    assert ks == [cs[0]] + SkipSelf(cs[1..], key);
    AllDefinedCons(flat, n, cs[0], SkipSelf(cs[1..], key));
  }

  /** Entering item `n`'s node keeps `node_map` in step with the items. */
  lemma MapMatchesStep(nodeMap: map<string, AreaNode>, flat: Level, n: nat)
    requires n < |flat| && MapMatches(nodeMap, flat, n) && Resolvable(flat, n + 1)
    ensures MapMatches(nodeMap[flat[n].key := NodeAt(flat, n)], flat, n + 1)
  {
    var m' := nodeMap[flat[n].key := NodeAt(flat, n)];
    forall c
      ensures c in m' <==> DefinedBefore(flat, n + 1, c)
      ensures c in m' ==> m'[c] == NodeAt(flat, LastBefore(flat, n + 1, c))
    {
      DefinedBeforeStep(flat, n, c);
    }
  }

  /** One more item defines its own key and keeps the last positions of the others. */
  lemma DefinedBeforeStep(flat: Level, n: nat, c: string)
    requires n < |flat|
    ensures DefinedBefore(flat, n + 1, c) <==> DefinedBefore(flat, n, c) || flat[n].key == c
    ensures DefinedBefore(flat, n + 1, c) && flat[n].key == c ==> LastBefore(flat, n + 1, c) == n
    ensures DefinedBefore(flat, n, c) && flat[n].key != c ==>
      LastBefore(flat, n + 1, c) == LastBefore(flat, n, c)
  {
    if DefinedBefore(flat, n + 1, c) && flat[n].key != c {
      var j :| 0 <= j < n + 1 && flat[j].key == c;
      assert DefinedBefore(flat, n, c);
    }
  }

  /**
   * Processing the items `n .. p` from a `node_map` that matches the first
   * `n` items succeeds exactly when those items link only to earlier keys,
   * and then yields each item's denotation and a map matching `p` items.
   */
  lemma {:induction false} CreateNodesMeaning(nodeMap: map<string, AreaNode>, flat: Level,
                                             n: nat, p: nat, level: Level)
    requires n <= p <= |flat| && MapMatches(nodeMap, flat, n)
    requires level == flat[n..p]
    ensures CreateNodes(nodeMap, level).Success? <==> Resolvable(flat, p)
    ensures CreateNodes(nodeMap, level).Success? ==>
      var res := CreateNodes(nodeMap, level).value;
      && MapMatches(res.0, flat, p)
      && |res.1| == p - n
      && Denotes(res.1, flat, n)
    decreases p - n, 1
  {
    if n < p {
      var e := flat[n];
      ResolveChildrenMeaning(nodeMap, flat, n, ChildrenOf(e));
      if ResolveChildren(nodeMap, e.key, ChildrenOf(e)).Success? {
        CreateNodesResolved(nodeMap, flat, n, p, level);
      } else {
        var ks := Kids(e);
        var k :| 0 <= k < |ks| && !DefinedBefore(flat, n, ks[k]);
        assert !Resolvable(flat, p);
        assert level[0] == e;
      }
    }
  }

  /** The step of `CreateNodesMeaning` where item `n`'s children resolve. */
  lemma {:induction false} CreateNodesResolved(nodeMap: map<string, AreaNode>, flat: Level,
                                              n: nat, p: nat, level: Level)
    requires n < p <= |flat| && MapMatches(nodeMap, flat, n)
    requires level == flat[n..p]
    requires ResolveChildren(nodeMap, flat[n].key, ChildrenOf(flat[n])).Success?
    ensures CreateNodes(nodeMap, level).Success? <==> Resolvable(flat, p)
    ensures CreateNodes(nodeMap, level).Success? ==>
      var res := CreateNodes(nodeMap, level).value;
      && MapMatches(res.0, flat, p)
      && |res.1| == p - n
      && Denotes(res.1, flat, n)
    decreases p - n, 0
  {
    assert level[0] == flat[n] && level[1..] == flat[n + 1..p];
    var e := flat[n];
    var kids := ResolveChildren(nodeMap, e.key, ChildrenOf(e)).value;
    assert Resolvable(flat, n + 1) && NodeAt(flat, n) == AreaNode(e.key, e.name, kids) by {
      ResolveChildrenMeaning(nodeMap, flat, n, ChildrenOf(e));
    }
    var node := NodeAt(flat, n);
    var m' := nodeMap[e.key := node];
    MapMatchesStep(nodeMap, flat, n);
    CreateNodesMeaning(m', flat, n + 1, p, level[1..]);
    CreateNodesCons(nodeMap, level);
    var rest := CreateNodes(m', level[1..]);
    if rest.Success? {
      ConsDenotes(flat, n, p, rest.value.1);
    }
  }

  /** One unfolding of `CreateNodes` whose first item's children resolve. */
  lemma CreateNodesCons(nodeMap: map<string, AreaNode>, level: Level)
    requires level != []
    requires ResolveChildren(nodeMap, level[0].key, ChildrenOf(level[0])).Success?
    ensures
      var node := AreaNode(level[0].key, level[0].name,
                           ResolveChildren(nodeMap, level[0].key, ChildrenOf(level[0])).value);
      var rest := CreateNodes(nodeMap[level[0].key := node], level[1..]);
      && (CreateNodes(nodeMap, level).Success? <==> rest.Success?)
      && (rest.Success? ==> CreateNodes(nodeMap, level).value == (rest.value.0, [node] + rest.value.1))
  {
  }

  /** Item `n`'s node in front of the nodes of items `n + 1 .. p`. */
  lemma ConsDenotes(flat: Level, n: nat, p: nat, ns: seq<AreaNode>)
    requires n < p <= |flat| && Resolvable(flat, p)
    requires |ns| == p - n - 1 && Denotes(ns, flat, n + 1)
    ensures Denotes([NodeAt(flat, n)] + ns, flat, n)
  {
    forall j | 0 <= j < p - n
      ensures ([NodeAt(flat, n)] + ns)[j] == NodeAt(flat, n + j)
    {
      if j > 0 {
        assert ([NodeAt(flat, n)] + ns)[j] == ns[j - 1];
      }
    }
  }

  /**
   * The remaining `create_node` calls, for the levels `names`, whose items
   * follow the items `pre` already entered in `node_map`.
   */
  lemma {:induction false} BuildLevelsMeaning(area: Area, flat: Level, pre: Level,
                                             nodeMap: map<string, AreaNode>,
                                             names: seq<string>, last: seq<AreaNode>)
    requires names != [] && forall i :: 0 <= i < |names| ==> names[i] in area
    requires flat == pre + FlatFrom(area, names)
    requires MapMatches(nodeMap, flat, |pre|)
    ensures BuildLevels(area, nodeMap, names, last).Success? <==> Resolvable(flat, |flat|)
    ensures BuildLevels(area, nodeMap, names, last).Success? ==>
      var nodes := BuildLevels(area, nodeMap, names, last).value.1;
      && |nodes| == |area[names[|names| - 1]]| <= |flat|
      && Denotes(nodes, flat, |flat| - |nodes|)
    decreases |names|, 1
  {
    if CreateNodes(nodeMap, area[names[0]]).Failure? {
      BuildLevelsFails(area, flat, pre, nodeMap, names, last);
    } else if |names| > 1 {
      BuildLevelsMore(area, flat, pre, nodeMap, names, last);
    } else {
      BuildLevelsLast(area, flat, pre, nodeMap, names, last);
    }
  }

  /** The step of `BuildLevelsMeaning` at a level whose items do not resolve. */
  lemma BuildLevelsFails(area: Area, flat: Level, pre: Level,
                                             nodeMap: map<string, AreaNode>,
                                             names: seq<string>, last: seq<AreaNode>)
    requires names != [] && forall i :: 0 <= i < |names| ==> names[i] in area
    requires flat == pre + FlatFrom(area, names)
    requires MapMatches(nodeMap, flat, |pre|)
    requires CreateNodes(nodeMap, area[names[0]]).Failure?
    ensures BuildLevels(area, nodeMap, names, last).Failure? && !Resolvable(flat, |flat|)
  {
    var hi := |pre| + |area[names[0]]|;
    LevelSlice(area, flat, pre, names);
    CreateNodesMeaning(nodeMap, flat, |pre|, hi, area[names[0]]);
    BuildLevelsCons(area, nodeMap, names, last);
    UnresolvableLater(flat, hi, |flat|);
  }

  /** The step of `BuildLevelsMeaning` at the last level, built. */
  lemma BuildLevelsLast(area: Area, flat: Level, pre: Level,
                                             nodeMap: map<string, AreaNode>,
                                             names: seq<string>, last: seq<AreaNode>)
    requires names != [] && forall i :: 0 <= i < |names| ==> names[i] in area
    requires flat == pre + FlatFrom(area, names)
    requires MapMatches(nodeMap, flat, |pre|)
    requires |names| == 1 && CreateNodes(nodeMap, area[names[0]]).Success?
    ensures BuildLevels(area, nodeMap, names, last).Success? <==> Resolvable(flat, |flat|)
    ensures BuildLevels(area, nodeMap, names, last).Success? ==>
      var nodes := BuildLevels(area, nodeMap, names, last).value.1;
      && |nodes| == |area[names[|names| - 1]]| <= |flat|
      && Denotes(nodes, flat, |flat| - |nodes|)
  {
    var level := area[names[0]];
    var cn := CreateNodes(nodeMap, level).value;
    assert && |cn.1| == |level| && |pre| + |level| == |flat| && Resolvable(flat, |flat|)
           && Denotes(cn.1, flat, |pre|) by {
      LevelSlice(area, flat, pre, names);
      CreateNodesMeaning(nodeMap, flat, |pre|, |flat|, level);
    }
    assert BuildLevels(area, nodeMap, names, last) == Success(cn) by {
      BuildLevelsCons(area, nodeMap, names, last);
    }
    assert names[|names| - 1] == names[0] && |flat| - |cn.1| == |pre|;
  }

  /** Where the first of the levels `names` sits among the items. */
  lemma LevelSlice(area: Area, flat: Level, pre: Level, names: seq<string>)
    requires names != [] && forall i :: 0 <= i < |names| ==> names[i] in area
    requires flat == pre + FlatFrom(area, names)
    ensures |pre| + |area[names[0]]| <= |flat|
    ensures flat[|pre|..|pre| + |area[names[0]]|] == area[names[0]]
    ensures |names| == 1 ==> |pre| + |area[names[0]]| == |flat|
    ensures forall i :: 0 <= i < |names[1..]| ==> names[1..][i] in area
    ensures |names| > 1 ==> flat == (pre + area[names[0]]) + FlatFrom(area, names[1..])
  {
    assert flat == (pre + area[names[0]]) + FlatFrom(area, names[1..]);
    assert forall i :: 0 <= i < |names[1..]| ==> names[1..][i] == names[i + 1];
  }

  /** The step of `BuildLevelsMeaning` past a level that was built, with levels left. */
  lemma {:induction false} BuildLevelsMore(area: Area, flat: Level, pre: Level,
                                             nodeMap: map<string, AreaNode>,
                                             names: seq<string>, last: seq<AreaNode>)
    requires names != [] && forall i :: 0 <= i < |names| ==> names[i] in area
    requires flat == pre + FlatFrom(area, names)
    requires MapMatches(nodeMap, flat, |pre|)
    requires |names| > 1 && CreateNodes(nodeMap, area[names[0]]).Success?
    ensures BuildLevels(area, nodeMap, names, last).Success? <==> Resolvable(flat, |flat|)
    ensures BuildLevels(area, nodeMap, names, last).Success? ==>
      var nodes := BuildLevels(area, nodeMap, names, last).value.1;
      && |nodes| == |area[names[|names| - 1]]| <= |flat|
      && Denotes(nodes, flat, |flat| - |nodes|)
    decreases |names|, 0
  {
    var level := area[names[0]];
    var hi := |pre| + |level|;
    LevelSlice(area, flat, pre, names);
    CreateNodesMeaning(nodeMap, flat, |pre|, hi, area[names[0]]);
    BuildLevelsCons(area, nodeMap, names, last);
    var cn := CreateNodes(nodeMap, level).value;
    assert names[1..][|names[1..]| - 1] == names[|names| - 1];
    BuildLevelsMeaning(area, flat, pre + level, cn.0, names[1..], cn.1);
  }

  /** One unfolding of `BuildLevels` at a present level. */
  lemma BuildLevelsCons(area: Area, nodeMap: map<string, AreaNode>, names: seq<string>,
                        last: seq<AreaNode>)
    requires names != [] && names[0] in area
    ensures CreateNodes(nodeMap, area[names[0]]).Failure? ==>
      BuildLevels(area, nodeMap, names, last).Failure?
    ensures CreateNodes(nodeMap, area[names[0]]).Success? ==>
      var res := CreateNodes(nodeMap, area[names[0]]).value;
      BuildLevels(area, nodeMap, names, last) == BuildLevels(area, res.0, names[1..], res.1)
  {
  }

  /** `area_tree` raises `KeyError` for a missing level. */
  lemma {:induction false} BuildLevelsNeedsLevels(area: Area, nodeMap: map<string, AreaNode>,
                                                 names: seq<string>, last: seq<AreaNode>)
    requires BuildLevels(area, nodeMap, names, last).Success?
    ensures forall i :: 0 <= i < |names| ==> names[i] in area
    decreases |names|
  {
    if names != [] {
      var res := CreateNodes(nodeMap, area[names[0]]).value;
      BuildLevelsNeedsLevels(area, res.0, names[1..], res.1);
      assert forall i :: 1 <= i < |names| ==> names[i] == names[1..][i - 1];
    }
  }

  /**
   * `area_tree` succeeds exactly when all five levels are present and every
   * item links only to keys of items processed before it (an earlier level,
   * or earlier in its own level), ignoring links to itself. It then returns
   * one node per item of `centers`, in order, each the node that item denotes.
   */
  lemma AreaTreeMeaning(area: Area)
    ensures AreaTree(area).Success? <==> HasLevels(area) && Resolvable(Flat(area), |Flat(area)|)
    ensures AreaTree(area).Success? ==>
      var nodes := AreaTree(area).value;
      && |nodes| == |area["centers"]| && CentersOffset(area) + |nodes| == |Flat(area)|
      && (forall j :: 0 <= j < |nodes| ==> nodes[j] == NodeAt(Flat(area), CentersOffset(area) + j))
  {
    AreaTreeNeedsLevels(area);
    if HasLevels(area) {
      AreaTreeFromLevels(area);
    }
  }

  /** Without `class20s` the first `create_node` call raises before any item is read. */
  lemma AreaTreeFirstLevelMissing(area: Area)
    requires "class20s" !in area
    ensures AreaTree(area) == Failure(MissingLevel("class20s"))
  {
  }

  lemma AreaTreeNeedsLevels(area: Area)
    ensures AreaTree(area).Success? ==> HasLevels(area)
  {
    var names := LEVELS;
    if BuildLevels(area, map[], names, []).Success? {
      BuildLevelsNeedsLevels(area, map[], names, []);
      assert names[0] in area && names[1] in area && names[2] in area;
      assert names[3] in area && names[4] in area;
    }
  }

  lemma AreaTreeFromLevels(area: Area)
    requires HasLevels(area)
    ensures AreaTree(area).Success? <==> Resolvable(Flat(area), |Flat(area)|)
    ensures AreaTree(area).Success? ==>
      var nodes := AreaTree(area).value;
      && |nodes| == |area["centers"]| && CentersOffset(area) + |nodes| == |Flat(area)|
      && Denotes(nodes, Flat(area), CentersOffset(area))
  {
    var r := BuildLevels(area, map[], LEVELS, []);
    BuildAllLevels(area);
    assert AreaTree(area) == if r.Success? then Success(r.value.1) else Failure(r.error);
  }

  /** The five levels processed from an empty `node_map`. */
  lemma BuildAllLevels(area: Area)
    requires HasLevels(area)
    ensures BuildLevels(area, map[], LEVELS, []).Success? <==> Resolvable(Flat(area), |Flat(area)|)
    ensures BuildLevels(area, map[], LEVELS, []).Success? ==>
      var nodes := BuildLevels(area, map[], LEVELS, []).value.1;
      && |nodes| == |area["centers"]| && CentersOffset(area) + |nodes| == |Flat(area)|
      && Denotes(nodes, Flat(area), CentersOffset(area))
  {
    var names := LEVELS;
    LevelsPresent(area);
    assert area["centers"] == area[names[|names| - 1]];
    assert CentersOffset(area) + |area["centers"]| == |Flat(area)| by {
      FlatOfLevels(area);
    }
    BuildFromEmpty(area, names, Flat(area), area["centers"], CentersOffset(area));
  }

  /**
   * Some levels, whose items are `flat`, processed from an empty `node_map`;
   * the last level `last` begins at `off`.
   */
  lemma BuildFromEmpty(area: Area, names: seq<string>, flat: Level, last: Level, off: nat)
    requires names != [] && forall i :: 0 <= i < |names| ==> names[i] in area
    requires flat == FlatFrom(area, names)
    requires last == area[names[|names| - 1]] && off + |last| == |flat|
    ensures var r := BuildLevels(area, map[], names, []);
      && (r.Success? <==> Resolvable(flat, |flat|))
      && (r.Success? ==>
            && |r.value.1| == |last|
            && Denotes(r.value.1, flat, off))
  {
    assert flat == [] + flat;
    EmptyMapMatches(flat);
    BuildLevelsMeaning(area, flat, [], map[], names, []);
  }

  /**
   * What each returned node holds: node `j` is the node of `centers` item `j`
   * (see `IsNodeOf`), whose links all resolve to earlier items. A child's
   * name is that of the LAST earlier item with its key, since a key that
   * reappears replaces the earlier `node_map` entry.
   */
  lemma AreaTreeNodes(area: Area, j: nat)
    requires AreaTree(area).Success?
    requires j < |AreaTree(area).value|
    ensures HasLevels(area) && j < |area["centers"]|
    ensures Resolvable(Flat(area), |Flat(area)|)
    ensures CentersOffset(area) + j < |Flat(area)|
    ensures Flat(area)[CentersOffset(area) + j] == area["centers"][j]
    ensures AllDefined(Flat(area), CentersOffset(area) + j, Kids(area["centers"][j]))
    ensures IsNodeOf(AreaTree(area).value[j], Flat(area), CentersOffset(area) + j)
  {
    AreaTreeNeedsLevels(area);
    AreaTreeFromLevels(area);
    CentersNodeAt(area, Flat(area), CentersOffset(area), AreaTree(area).value, j);
  }

  /** `AreaTreeNodes` for nodes already known to denote the `centers` part of `flat`. */
  lemma CentersNodeAt(area: Area, flat: Level, off: nat, nodes: seq<AreaNode>, j: nat)
    requires HasLevels(area) && flat == Flat(area) && off == CentersOffset(area)
    requires Resolvable(flat, |flat|) && off + |nodes| == |flat| && j < |nodes|
    requires Denotes(nodes, flat, off) && |nodes| == |area["centers"]|
    ensures j < |area["centers"]| && off + j < |flat| && flat[off + j] == area["centers"][j]
    ensures AllDefined(flat, off + j, Kids(area["centers"][j]))
    ensures IsNodeOf(nodes[j], flat, off + j)
  {
    assert nodes[j] == NodeAt(flat, off + j);
    CentersItem(area, j);
    ResolvedNodeAt(flat, off + j, nodes[j]);
  }

  /** Item `j` of `centers` sits at `CentersOffset(area) + j` of the flattened levels. */
  lemma CentersItem(area: Area, j: nat)
    requires HasLevels(area) && j < |area["centers"]|
    ensures CentersOffset(area) + j < |Flat(area)|
    ensures Flat(area)[CentersOffset(area) + j] == area["centers"][j]
  {
    FlatOfLevels(area);
    assert Flat(area)[CentersOffset(area) + j] == Flat(area)[CentersOffset(area)..][j];
  }

  /** Item `i` of a resolvable list has all its links defined, and its node is `IsNodeOf`. */
  lemma ResolvedNodeAt(flat: Level, i: nat, node: AreaNode)
    requires Resolvable(flat, |flat|) && i < |flat| && node == NodeAt(flat, i)
    ensures AllDefined(flat, i, Kids(flat[i])) && IsNodeOf(node, flat, i)
  {
    assert AllDefined(flat, i, Kids(flat[i]));
    NodeAtContents(flat, i, node);
  }

  /**
   * `node` is what the tree holds for item `i` of `flat`, field by field: the
   * item's key and `name`; the item's `children` minus its own key, in list
   * order, as child keys; no children when the item has none; and for each
   * child key, the name of the LAST earlier item with that key.
   */
  predicate IsNodeOf(node: AreaNode, flat: Level, i: nat)
    requires i < |flat| && AllDefined(flat, i, Kids(flat[i]))
  {
    var e := flat[i];
    && node.key == e.key
    && node.name == e.name
    && |node.children| == |Kids(e)|
    && (e.children == None ==> node.children == [])
    && forall k :: 0 <= k < |Kids(e)| ==>
         && node.children[k].key == Kids(e)[k]
         && Kids(e)[k] != e.key
         && node.children[k].name == flat[LastBefore(flat, i, Kids(e)[k])].name
  }

  /** The node of an item whose links all resolve, field by field. */
  lemma NodeAtContents(flat: Level, i: nat, node: AreaNode)
    requires i < |flat| && AllDefined(flat, i, Kids(flat[i])) && node == NodeAt(flat, i)
    ensures IsNodeOf(node, flat, i)
  {
    ChildNamesAt(flat, i, Kids(flat[i]));
  }

  lemma {:induction false} ChildNamesAt(flat: Level, i: nat, ks: seq<string>)
    requires i < |flat| && AllDefined(flat, i, ks)
    ensures forall k :: 0 <= k < |ks| ==>
      ChildrenAt(flat, i, ks)[k].name == flat[LastBefore(flat, i, ks[k])].name
    decreases |ks|
  {
    if ks != [] {
      AllDefinedCons(flat, i, ks[0], ks[1..]);
      assert ks == [ks[0]] + ks[1..];
      ChildNamesAt(flat, i, ks[1..]);
      assert forall k :: 1 <= k < |ks| ==> ks[k] == ks[1..][k - 1];
    }
  }

  lemma EmptyMapMatches(flat: Level)
    ensures MapMatches(map[], flat, 0)
  {
  }
}
