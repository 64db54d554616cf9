/**
 Entity associations: finding the topmost entities and building the object paths of all entities below one of them
 (host-bmc/utils.cpp).
 */
module EntityAssociations {
  import opened Wrappers

  /** An entity node: `id` tells nodes apart; the other fields are those the code compares. */
  datatype Node = Node(id: nat, kind: nat, instance: nat, container: nat)

  /** What makes two nodes the same entity: type, instance and remote container. */
  datatype Identity = Identity(kind: nat, instance: nat, container: nat)

  function Id(n: Node): Identity { Identity(n.kind, n.instance, n.container) }

  lemma {:induction false} SameEntityIff(a: Node, b: Node)
    ensures Id(a) == Id(b) <==> a.kind == b.kind && a.instance == b.instance && a.container == b.container
  {
  }

  /** Each association lists a containing entity and then the entities in it. */
  type Associations = s: seq<seq<Node>> | forall k | 0 <= k < |s| :: s[k] != []

  /** An object path, component by component. */
  type Path = seq<string>

  // ----- containment

  ghost predicate Contains(assoc: Associations, n: Node, m: Node) {
    exists k, i :: 0 <= k < |assoc| && 1 <= i < |assoc[k]| && Id(assoc[k][0]) == Id(n) && assoc[k][i] == m
  }

  /** Containment is acyclic: entities have a rank that falls from a container to what it contains. */
  ghost predicate Ranked(assoc: Associations, rank: Identity -> nat) {
    forall k, i | 0 <= k < |assoc| && 1 <= i < |assoc[k]| :: rank(Id(assoc[k][i])) < rank(Id(assoc[k][0]))
  }

  // ----- the topmost entities

  /** The node is contained in some association. */
  ghost predicate IsMember(assoc: Associations, n: Node) {
    exists k, i :: 0 <= k < |assoc| && 1 <= i < |assoc[k]| && Id(assoc[k][i]) == Id(n)
  }

  function Heads(assoc: Associations): (r: seq<Node>)
    ensures |r| == |assoc|
  {
    seq(|assoc|, k requires 0 <= k < |assoc| => assoc[k][0])
  }

  /** The nodes of a list that no association contains, in order. */
  ghost function Outermost(assoc: Associations, ns: seq<Node>): seq<Node> {
    if ns == [] then []
    else
      var n := ns[|ns| - 1];
      Outermost(assoc, ns[..|ns| - 1]) + if IsMember(assoc, n) then [] else [n]
  }

  /** The inner loops: is the node a member of an association? */
  method FindMember(assoc: Associations, n: Node) returns (found: bool)
    ensures found <==> IsMember(assoc, n)
  {
    found := false;
    for k := 0 to |assoc|
      invariant !found
      invariant forall j, i | 0 <= j < k && 1 <= i < |assoc[j]| :: Id(assoc[j][i]) != Id(n)
    {
      var i := 1;
      while i < |assoc[k]| && !found
        invariant 1 <= i <= |assoc[k]|
        invariant found ==> IsMember(assoc, n)
        invariant !found ==> forall x | 1 <= x < i :: Id(assoc[k][x]) != Id(n)
      {
        var m := assoc[k][i];
        if m.kind == n.kind && m.instance == n.instance && m.container == n.container {
          found := true;
        }
        i := i + 1;
      }
      if found {
        return;
      }
    }
  }

  /** getParentEntites: heads are erased from the list while it is iterated over. */
  method GetParentEntities(assoc: Associations) returns (parents: seq<Node>)
    ensures parents == Outermost(assoc, Heads(assoc))
  {
    parents := [];
    for k := 0 to |assoc|
      invariant parents == Heads(assoc)[..k]
    {
      parents := parents + [assoc[k][0]];
    }
    ghost var heads, n := Heads(assoc), 0;
    assert parents == heads;
    var it := 0;
    while it < |parents|
      invariant 0 <= n <= |heads| && 0 <= it <= |parents|
      invariant parents[..it] == Outermost(assoc, heads[..n])
      invariant parents[it..] == heads[n..]
      decreases |heads| - n
    {
      assert parents[it] == parents[it..][0] == heads[n];
      assert heads[..n + 1][..n] == heads[..n];
      assert parents[it + 1..] == parents[it..][1..] == heads[n + 1..];
      var found := FindMember(assoc, parents[it]);
      if found {
        ghost var before := parents;
        parents := parents[..it] + parents[it + 1..];
        assert parents[..it] == before[..it] && parents[it..] == before[it + 1..];
      } else {
        assert parents[..it + 1] == parents[..it] + [parents[it]];
        it := it + 1;
      }
      n := n + 1;
    }
    assert parents[..it] == parents;
    assert |heads[n..]| == 0;
    assert heads[..n] == heads;
  }

  /** They are, in order, exactly those that no association contains. */
  lemma {:induction false} OutermostPicks(assoc: Associations, ns: seq<Node>)
    ensures Picks(Outermost(assoc, ns), ns, (n: Node) => !IsMember(assoc, n))
    decreases |ns|
  {
    var free := (n: Node) => !IsMember(assoc, n);
    if ns == [] {
      PicksNothing(free);
    } else {
      var last, before := ns[|ns| - 1], ns[..|ns| - 1];
      OutermostPicks(assoc, before);
      PicksAppend(Outermost(assoc, before), before, free, last);
      assert ns == before + [last];
    }
  }

  lemma {:induction false} OutermostMembers(assoc: Associations, ns: seq<Node>, n: Node)
    ensures n in Outermost(assoc, ns) <==> n in ns && !IsMember(assoc, n)
    decreases |ns|
  {
    if ns != [] {
      var last, before := ns[|ns| - 1], ns[..|ns| - 1];
      OutermostMembers(assoc, before, n);
      assert n in ns <==> n in before || n == last;
    }
  }

  // ----- chains of containment

  ghost predicate Linked(assoc: Associations, c: seq<Node>) {
    c != [] && forall i | 0 <= i < |c| - 1 :: Contains(assoc, c[i], c[i + 1])
  }

  lemma {:induction false} LinkedAppend(assoc: Associations, c: seq<Node>, m: Node)
    requires Linked(assoc, c) && Contains(assoc, c[|c| - 1], m)
    ensures Linked(assoc, c + [m])
  {
    var d := c + [m];
    forall i | 0 <= i < |d| - 1 ensures Contains(assoc, d[i], d[i + 1]) {
      assert i < |c| - 1 ==> Contains(assoc, c[i], c[i + 1]);
    }
  }

  /** The entity is at the end of a chain from a topmost one. */
  ghost predicate FromTop(assoc: Associations, c: seq<Node>, n: Node) {
    Linked(assoc, c) && c[0] in Outermost(assoc, Heads(assoc)) && Id(c[|c| - 1]) == Id(n)
  }

  ghost function MaxRank(assoc: Associations, rank: Identity -> nat, n: nat): (m: nat)
    requires n <= |assoc|
    ensures forall k | 0 <= k < n :: rank(Id(assoc[k][0])) <= m
  {
    if n == 0 then 0
    else
      var m := MaxRank(assoc, rank, n - 1);
      var r := rank(Id(assoc[n - 1][0]));
      if r > m then r else m
  }

  /** Where containment is acyclic, the topmost entities lead to every entity that contains something. */
  lemma {:induction false} TopmostLeadToAll(assoc: Associations, rank: Identity -> nat, k: nat)
    requires Ranked(assoc, rank) && k < |assoc|
    ensures exists c :: FromTop(assoc, c, assoc[k][0])
    decreases MaxRank(assoc, rank, |assoc|) - rank(Id(assoc[k][0]))
  {
    var h := assoc[k][0];
    if IsMember(assoc, h) {
      var j, i :| 0 <= j < |assoc| && 1 <= i < |assoc[j]| && Id(assoc[j][i]) == Id(h);
      assert rank(Id(assoc[j][i])) < rank(Id(assoc[j][0]));
      TopmostLeadToAll(assoc, rank, j);
      var c :| FromTop(assoc, c, assoc[j][0]);
      var m := assoc[j][i];
      assert Contains(assoc, c[|c| - 1], m);
      LinkedAppend(assoc, c, m);
      assert FromTop(assoc, c + [m], h);
    } else {
      assert Heads(assoc)[k] == h;
      OutermostMembers(assoc, Heads(assoc), h);
      assert FromTop(assoc, [h], h);
    }
  }

  // ----- object paths

  function Digits(n: nat): string {
    if n < 10 then [['0', '1', '2', '3', '4', '5', '6', '7', '8', '9'][n]] else Digits(n / 10) + Digits(n % 10)
  }

  /** entityName + std::to_string(entity_instance_num) */
  function Component(maps: map<nat, string>, n: Node): string
    requires n.kind in maps
  {
    maps[n.kind] + Digits(n.instance)
  }

  predicate AllMapped(maps: map<nat, string>, c: seq<Node>) {
    forall i | 0 <= i < |c| :: c[i].kind in maps
  }

  function PathOf(maps: map<nat, string>, c: seq<Node>): Path
    requires AllMapped(maps, c)
  {
    seq(|c|, i requires 0 <= i < |c| => Component(maps, c[i]))
  }

  /** A chain of mapped entities from `n` down to `v` that makes the path. */
  ghost predicate Spells(assoc: Associations, maps: map<nat, string>, base: Path, n: Node, c: seq<Node>, p: Path, v: Node) {
    && Linked(assoc, c) && AllMapped(maps, c)
    && c[0] == n && c[|c| - 1] == v && p == base + PathOf(maps, c)
  }

  /** One update of the map: a path and the node it is to stand for. */
  datatype Visit = Visit(path: Path, node: Node)

  predicate Match(ev: seq<Node>, n: Node) {
    ev != [] && Id(ev[0]) == Id(n)
  }

  /** The node heads one of the first k associations. */
  predicate HeadsOneOf(assoc: Associations, n: Node, k: nat)
    requires k <= |assoc|
  {
    k > 0 && (Match(assoc[k - 1], n) || HeadsOneOf(assoc, n, k - 1))
  }

  lemma {:induction false} HeadsOneOfIff(assoc: Associations, n: Node, k: nat)
    requires k <= |assoc|
    ensures HeadsOneOf(assoc, n, k) <==> exists j :: 0 <= j < k && Match(assoc[j], n)
  {
    if k > 0 {
      HeadsOneOfIff(assoc, n, k - 1);
    }
  }

  predicate HasOwn(assoc: Associations, n: Node) {
    HeadsOneOf(assoc, n, |assoc|)
  }

  /** The updates that the recursion makes from a node on, in order. */
  function Visits(assoc: Associations, maps: map<nat, string>, ghost rank: Identity -> nat, base: Path, n: Node): seq<Visit>
    requires Ranked(assoc, rank)
    decreases rank(Id(n)), 3, 0
  {
    if n.kind !in maps then []
    else
      var p := base + [Component(maps, n)];
      if HasOwn(assoc, n) then VisitsVia(assoc, maps, rank, p, n, 0) else [Visit(p, n)]
  }

  /** Those made for the associations from k on. */
  function VisitsVia(
    assoc: Associations, maps: map<nat, string>, ghost rank: Identity -> nat, p: Path, n: Node, k: nat): seq<Visit>
    requires Ranked(assoc, rank) && k <= |assoc|
    decreases rank(Id(n)), 2, |assoc| - k
  {
    if k == |assoc| then []
    else VisitsFor(assoc, maps, rank, p, n, k) + VisitsVia(assoc, maps, rank, p, n, k + 1)
  }

  /** Those made for association k, if the node heads it. */
  function VisitsFor(
    assoc: Associations, maps: map<nat, string>, ghost rank: Identity -> nat, p: Path, n: Node, k: nat): seq<Visit>
    requires Ranked(assoc, rank) && k < |assoc|
    decreases rank(Id(n)), 1, 0
  {
    if Match(assoc[k], n) then [Visit(p, n)] + VisitsIn(assoc, maps, rank, p, k, 1) else []
  }

  /** Those made for the members of association k from i on. */
  function VisitsIn(
    assoc: Associations, maps: map<nat, string>, ghost rank: Identity -> nat, p: Path, k: nat, i: nat): seq<Visit>
    requires Ranked(assoc, rank) && k < |assoc| && 1 <= i <= |assoc[k]|
    decreases rank(Id(assoc[k][0])), 0, |assoc[k]| - i
  {
    if i == |assoc[k]| then []
    else Visits(assoc, maps, rank, p, assoc[k][i]) + VisitsIn(assoc, maps, rank, p, k, i + 1)
  }

  // ----- the updates are the chains

  /** The update is one of member j's of association k. */
  ghost predicate OfMember(
    assoc: Associations, maps: map<nat, string>, rank: Identity -> nat, p: Path, k: nat, j: nat, x: Visit)
    requires Ranked(assoc, rank)
  {
    k < |assoc| && j < |assoc[k]| && x in Visits(assoc, maps, rank, p, assoc[k][j])
  }

  lemma {:induction false} InVisitsIn(
    assoc: Associations, maps: map<nat, string>, rank: Identity -> nat, p: Path, k: nat, i: nat, x: Visit)
    requires Ranked(assoc, rank) && k < |assoc| && 1 <= i <= |assoc[k]|
    ensures x in VisitsIn(assoc, maps, rank, p, k, i)
       <==> exists j: nat :: i <= j && OfMember(assoc, maps, rank, p, k, j, x)
    decreases |assoc[k]| - i
  {
    if i == |assoc[k]| {
      return;
    }
    InVisitsIn(assoc, maps, rank, p, k, i + 1, x);
    var first, rest := Visits(assoc, maps, rank, p, assoc[k][i]), VisitsIn(assoc, maps, rank, p, k, i + 1);
    assert VisitsIn(assoc, maps, rank, p, k, i) == first + rest;
    if x in first {
      assert OfMember(assoc, maps, rank, p, k, i, x);
    } else if x in rest {
      var j: nat :| i + 1 <= j && OfMember(assoc, maps, rank, p, k, j, x);
    } else {
      assert !OfMember(assoc, maps, rank, p, k, i, x);
    }
  }

  /** The update is made for association j. */
  ghost predicate OfAssociation(
    assoc: Associations, maps: map<nat, string>, rank: Identity -> nat, p: Path, n: Node, j: nat, x: Visit)
    requires Ranked(assoc, rank)
  {
    j < |assoc| && x in VisitsFor(assoc, maps, rank, p, n, j)
  }

  lemma {:induction false} InVisitsVia(
    assoc: Associations, maps: map<nat, string>, rank: Identity -> nat, p: Path, n: Node, k: nat, x: Visit)
    requires Ranked(assoc, rank) && k <= |assoc|
    ensures x in VisitsVia(assoc, maps, rank, p, n, k)
       <==> exists j: nat :: k <= j && OfAssociation(assoc, maps, rank, p, n, j, x)
    decreases |assoc| - k
  {
    if k == |assoc| {
      return;
    }
    InVisitsVia(assoc, maps, rank, p, n, k + 1, x);
    var own, rest := VisitsFor(assoc, maps, rank, p, n, k), VisitsVia(assoc, maps, rank, p, n, k + 1);
    assert VisitsVia(assoc, maps, rank, p, n, k) == own + rest;
    if x in own {
      assert OfAssociation(assoc, maps, rank, p, n, k, x);
    } else if x in rest {
      var j: nat :| k + 1 <= j && OfAssociation(assoc, maps, rank, p, n, j, x);
    } else {
      assert !OfAssociation(assoc, maps, rank, p, n, k, x);
    }
  }

  /** An update from a node on is the node's own, or one of a node that it contains. */
  lemma {:induction false} InVisits(
    assoc: Associations, maps: map<nat, string>, rank: Identity -> nat, base: Path, n: Node, x: Visit)
    requires Ranked(assoc, rank)
    ensures x in Visits(assoc, maps, rank, base, n)
       <==> n.kind in maps && var p := base + [Component(maps, n)];
            x == Visit(p, n) || exists m :: Contains(assoc, n, m) && x in Visits(assoc, maps, rank, p, m)
  {
    if n.kind in maps {
      var p := base + [Component(maps, n)];
      if m :| Contains(assoc, n, m) {
        ContainerHasOwn(assoc, n, m);
      }
      if HasOwn(assoc, n) {
        InVisitsVia(assoc, maps, rank, p, n, 0, x);
        ViaContained(assoc, maps, rank, p, n, x);
        HeadsOneOfIff(assoc, n, |assoc|);
        var k :| 0 <= k < |assoc| && Match(assoc[k], n);
        assert OfAssociation(assoc, maps, rank, p, n, k, Visit(p, n));
      } else {
        assert forall m :: !Contains(assoc, n, m);
      }
    }
  }

  lemma {:induction false} ContainerHasOwn(assoc: Associations, n: Node, m: Node)
    requires Contains(assoc, n, m)
    ensures HasOwn(assoc, n)
  {
    var k, i :| 0 <= k < |assoc| && 1 <= i < |assoc[k]| && Id(assoc[k][0]) == Id(n) && assoc[k][i] == m;
    assert Match(assoc[k], n);
    HeadsOneOfIff(assoc, n, |assoc|);
  }

  lemma {:induction false} ViaContained(
    assoc: Associations, maps: map<nat, string>, rank: Identity -> nat, p: Path, n: Node, x: Visit)
    requires Ranked(assoc, rank)
    ensures (exists m :: Contains(assoc, n, m) && x in Visits(assoc, maps, rank, p, m))
       <==> (exists j: nat :: OfAssociation(assoc, maps, rank, p, n, j, x) && x in VisitsIn(assoc, maps, rank, p, j, 1))
  {
    if j: nat :| OfAssociation(assoc, maps, rank, p, n, j, x) && x in VisitsIn(assoc, maps, rank, p, j, 1) {
      InVisitsIn(assoc, maps, rank, p, j, 1, x);
      var i: nat :| 1 <= i && OfMember(assoc, maps, rank, p, j, i, x);
      assert Contains(assoc, n, assoc[j][i]);
    }
    if m :| Contains(assoc, n, m) && x in Visits(assoc, maps, rank, p, m) {
      var k, i :| 0 <= k < |assoc| && 1 <= i < |assoc[k]| && Id(assoc[k][0]) == Id(n) && assoc[k][i] == m;
      InVisitsIn(assoc, maps, rank, p, k, 1, x);
      assert OfMember(assoc, maps, rank, p, k, i, x) && OfAssociation(assoc, maps, rank, p, n, k, x);
    }
  }

  lemma {:induction false} ContainedRank(assoc: Associations, rank: Identity -> nat, n: Node, m: Node)
    requires Ranked(assoc, rank) && Contains(assoc, n, m)
    ensures rank(Id(m)) < rank(Id(n))
  {
    var k, i :| 0 <= k < |assoc| && 1 <= i < |assoc[k]| && Id(assoc[k][0]) == Id(n) && assoc[k][i] == m;
    assert rank(Id(assoc[k][i])) < rank(Id(assoc[k][0]));
  }

  lemma {:induction false} SpellsCons(
    assoc: Associations, maps: map<nat, string>, base: Path, n: Node, c: seq<Node>, p: Path, v: Node)
    requires n.kind in maps && c != [] && Contains(assoc, n, c[0])
    ensures Spells(assoc, maps, base + [Component(maps, n)], c[0], c, p, v)
       <==> Spells(assoc, maps, base, n, [n] + c, p, v)
  {
    var d := [n] + c;
    assert Linked(assoc, c) <==> Linked(assoc, d) by {
      if Linked(assoc, d) {
        forall i | 0 <= i < |c| - 1 ensures Contains(assoc, c[i], c[i + 1]) {
          assert Contains(assoc, d[i + 1], d[i + 2]);
        }
      }
    }
    assert AllMapped(maps, c) <==> AllMapped(maps, d) by {
      if AllMapped(maps, d) {
        forall i | 0 <= i < |c| ensures c[i].kind in maps {
          assert d[i + 1].kind in maps;
        }
      }
    }
    if AllMapped(maps, c) {
      assert PathOf(maps, d) == [Component(maps, n)] + PathOf(maps, c);
      assert base + [Component(maps, n)] + PathOf(maps, c) == base + PathOf(maps, d);
    }
  }

  /** Every update is for a chain of mapped entities. */
  lemma {:induction false} VisitIsChain(
    assoc: Associations, maps: map<nat, string>, rank: Identity -> nat, base: Path, n: Node, x: Visit)
    requires Ranked(assoc, rank) && x in Visits(assoc, maps, rank, base, n)
    ensures exists c :: Spells(assoc, maps, base, n, c, x.path, x.node)
    decreases rank(Id(n))
  {
    InVisits(assoc, maps, rank, base, n, x);
    var p := base + [Component(maps, n)];
    if x == Visit(p, n) {
      assert PathOf(maps, [n]) == [Component(maps, n)];
      assert Spells(assoc, maps, base, n, [n], p, n);
    } else {
      var m :| Contains(assoc, n, m) && x in Visits(assoc, maps, rank, p, m);
      ContainedRank(assoc, rank, n, m);
      VisitIsChain(assoc, maps, rank, p, m, x);
      var c :| Spells(assoc, maps, p, m, c, x.path, x.node);
      SpellsCons(assoc, maps, base, n, c, x.path, x.node);
    }
  }

  /** And every chain of mapped entities gets its update. */
  lemma {:induction false} ChainIsVisited(
    assoc: Associations, maps: map<nat, string>, rank: Identity -> nat, base: Path, n: Node, c: seq<Node>, x: Visit)
    requires Ranked(assoc, rank) && Spells(assoc, maps, base, n, c, x.path, x.node)
    ensures x in Visits(assoc, maps, rank, base, n)
    decreases |c|
  {
    InVisits(assoc, maps, rank, base, n, x);
    assert c[0].kind in maps;
    if |c| == 1 {
      assert PathOf(maps, c) == [Component(maps, n)];
    } else {
      var rest := c[1..];
      assert c == [n] + rest;
      assert Contains(assoc, c[0], c[1]);
      SpellsCons(assoc, maps, base, n, rest, x.path, x.node);
      ChainIsVisited(assoc, maps, rank, base + [Component(maps, n)], rest[0], rest, x);
    }
  }

  // ----- the map

  type PathMap = map<Path, Node>

  /** A path that is on D-Bus already is only overwritten if it is in the map. */
  function Put(m: PathMap, onBus: Path -> bool, x: Visit): PathMap {
    if onBus(x.path) && x.path !in m then m else m[x.path := x.node]
  }

  function PutAll(m: PathMap, onBus: Path -> bool, xs: seq<Visit>): PathMap {
    if xs == [] then m else Put(PutAll(m, onBus, xs[..|xs| - 1]), onBus, xs[|xs| - 1])
  }

  lemma {:induction false} PutAllAppend(m: PathMap, onBus: Path -> bool, a: seq<Visit>, b: seq<Visit>)
    ensures PutAll(m, onBus, a + b) == PutAll(PutAll(m, onBus, a), onBus, b)
    decreases |b|
  {
    if b == [] {
      assert a + b == a;
    } else {
      assert (a + b)[..|a + b| - 1] == a + b[..|b| - 1];
      PutAllAppend(m, onBus, a, b[..|b| - 1]);
    }
  }

  lemma {:induction false} PutOne(m: PathMap, onBus: Path -> bool, x: Visit)
    ensures PutAll(m, onBus, [x]) == Put(m, onBus, x)
  {
    assert [x][..0] == [];
  }

  ghost predicate Visited(xs: seq<Visit>, p: Path) {
    exists v :: Visit(p, v) in xs
  }

  /** The paths after the updates, and the nodes they stand for. */
  lemma {:induction false} PutAllMeaning(m: PathMap, onBus: Path -> bool, xs: seq<Visit>, p: Path)
    ensures var r := PutAll(m, onBus, xs);
            && (p in r <==> p in m || (!onBus(p) && Visited(xs, p)))
            && (p in r && Visited(xs, p) ==> Visit(p, r[p]) in xs)
            && (p in r && !Visited(xs, p) ==> r[p] == m[p])
    decreases |xs|
  {
    if xs != [] {
      var before, last := xs[..|xs| - 1], xs[|xs| - 1];
      PutAllMeaning(m, onBus, before, p);
      assert xs == before + [last];
      assert Visited(xs, p) <==> Visited(before, p) || last.path == p by {
        if last.path == p {
          assert Visit(p, last.node) in xs;
        }
        if v :| Visit(p, v) in before {
          assert Visit(p, v) in xs;
        }
      }
    }
  }

  class ObjectPaths {
    var objPathMap: PathMap

    /** addObjectPathEntityAssociations; `onBus` says whether D-Bus knows a path. */
    method AddObjectPathEntityAssociations(
      assoc: Associations, entity: Node, path: Path, maps: map<nat, string>, onBus: Path -> bool,
      ghost rank: Identity -> nat)
      requires Ranked(assoc, rank)
      modifies this
      ensures objPathMap == PutAll(old(objPathMap), onBus, Visits(assoc, maps, rank, path, entity))
      decreases rank(Id(entity)), 3
    {
      if entity.kind !in maps {
        return;
      }
      var p := path + [Component(maps, entity)];
      var found := AddAssociations(assoc, entity, p, maps, onBus, rank);
      if !found {
        Store(p, entity, onBus);
        PutOne(old(objPathMap), onBus, Visit(p, entity));
      }
    }

    /** The loop over the associations that the entity heads. */
    method AddAssociations(
      assoc: Associations, entity: Node, p: Path, maps: map<nat, string>, onBus: Path -> bool,
      ghost rank: Identity -> nat)
      returns (found: bool)
      requires Ranked(assoc, rank)
      modifies this
      ensures found <==> HasOwn(assoc, entity)
      ensures !found ==> objPathMap == old(objPathMap)
      ensures objPathMap == PutAll(old(objPathMap), onBus, VisitsVia(assoc, maps, rank, p, entity, 0))
      decreases rank(Id(entity)), 2
    {
      found := false;
      ghost var all := PutAll(objPathMap, onBus, VisitsVia(assoc, maps, rank, p, entity, 0));
      for k := 0 to |assoc|
        invariant found <==> HeadsOneOf(assoc, entity, k)
        invariant !found ==> objPathMap == old(objPathMap)
        invariant all == PutAll(objPathMap, onBus, VisitsVia(assoc, maps, rank, p, entity, k))
      {
        PutAllAppend(objPathMap, onBus, VisitsFor(assoc, maps, rank, p, entity, k),
                     VisitsVia(assoc, maps, rank, p, entity, k + 1));
        var own := AddAssociation(assoc, k, entity, p, maps, onBus, rank);
        found := found || own;
      }
    }

    method AddAssociation(
      assoc: Associations, k: nat, entity: Node, p: Path, maps: map<nat, string>, onBus: Path -> bool,
      ghost rank: Identity -> nat)
      returns (own: bool)
      requires Ranked(assoc, rank) && k < |assoc|
      modifies this
      ensures own <==> Match(assoc[k], entity)
      ensures objPathMap == PutAll(old(objPathMap), onBus, VisitsFor(assoc, maps, rank, p, entity, k))
      decreases rank(Id(entity)), 1
    {
      own := Match(assoc[k], entity);
      if own {
        PutAllAppend(objPathMap, onBus, [Visit(p, entity)], VisitsIn(assoc, maps, rank, p, k, 1));
        PutOne(objPathMap, onBus, Visit(p, entity));
        Store(p, entity, onBus);
        AddMembers(assoc, k, p, maps, onBus, rank);
      }
    }

    /** The loop over the members of an association. */
    method AddMembers(
      assoc: Associations, k: nat, p: Path, maps: map<nat, string>, onBus: Path -> bool, ghost rank: Identity -> nat)
      requires Ranked(assoc, rank) && k < |assoc|
      modifies this
      ensures objPathMap == PutAll(old(objPathMap), onBus, VisitsIn(assoc, maps, rank, p, k, 1))
      decreases rank(Id(assoc[k][0])), 0
    {
      ghost var all := PutAll(objPathMap, onBus, VisitsIn(assoc, maps, rank, p, k, 1));
      for i := 1 to |assoc[k]|
        invariant all == PutAll(objPathMap, onBus, VisitsIn(assoc, maps, rank, p, k, i))
      {
        PutAllAppend(objPathMap, onBus, Visits(assoc, maps, rank, p, assoc[k][i]),
                     VisitsIn(assoc, maps, rank, p, k, i + 1));
        AddObjectPathEntityAssociations(assoc, assoc[k][i], p, maps, onBus, rank);
      }
    }

    /** The path is stored unless it is on D-Bus and not in the map. */
    method Store(p: Path, entity: Node, onBus: Path -> bool)
      modifies this
      ensures objPathMap == Put(old(objPathMap), onBus, Visit(p, entity))
    {
      if onBus(p) {
        if p in objPathMap {
          objPathMap := objPathMap[p := entity];
        }
      } else {
        objPathMap := objPathMap[p := entity];
      }
    }
  }

  /** The path is spelled by some chain from the entity. */
  ghost predicate ChainPath(assoc: Associations, maps: map<nat, string>, base: Path, n: Node, p: Path) {
    exists c, v :: Spells(assoc, maps, base, n, c, p, v)
  }

  lemma {:induction false} VisitedIsChainPath(
    assoc: Associations, maps: map<nat, string>, rank: Identity -> nat, base: Path, n: Node, p: Path)
    requires Ranked(assoc, rank)
    ensures Visited(Visits(assoc, maps, rank, base, n), p) <==> ChainPath(assoc, maps, base, n, p)
  {
    var xs := Visits(assoc, maps, rank, base, n);
    if v :| Visit(p, v) in xs {
      VisitIsChain(assoc, maps, rank, base, n, Visit(p, v));
    }
    if c, v :| Spells(assoc, maps, base, n, c, p, v) {
      ChainIsVisited(assoc, maps, rank, base, n, c, Visit(p, v));
    }
  }

  /**
   The paths added are those of the chains of mapped entities from the start node that D-Bus does not know yet, and
   a path of a chain stands for the last entity of such a chain.
   */
  lemma {:induction false} PathsAreChains(
    assoc: Associations, maps: map<nat, string>, rank: Identity -> nat, base: Path, n: Node,
    m: PathMap, onBus: Path -> bool, p: Path)
    requires Ranked(assoc, rank)
    ensures var r := PutAll(m, onBus, Visits(assoc, maps, rank, base, n));
            var chain := ChainPath(assoc, maps, base, n, p);
            && (p in r <==> p in m || (chain && !onBus(p)))
            && (p in r && chain ==> exists c :: Spells(assoc, maps, base, n, c, p, r[p]))
            && (p in r && !chain ==> r[p] == m[p])
  {
    var xs := Visits(assoc, maps, rank, base, n);
    var r := PutAll(m, onBus, xs);
    PutAllMeaning(m, onBus, xs, p);
    VisitedIsChainPath(assoc, maps, rank, base, n, p);
    if p in r && Visited(xs, p) {
      VisitIsChain(assoc, maps, rank, base, n, Visit(p, r[p]));
    }
  }

  ghost predicate AllTypesMapped(assoc: Associations, maps: map<nat, string>) {
    forall k, i | 0 <= k < |assoc| && 0 <= i < |assoc[k]| :: assoc[k][i].kind in maps
  }

  lemma {:induction false} ChainFromTopIsMapped(assoc: Associations, maps: map<nat, string>, c: seq<Node>)
    requires AllTypesMapped(assoc, maps) && Linked(assoc, c) && c[0] in Outermost(assoc, Heads(assoc))
    ensures AllMapped(maps, c)
  {
    forall i | 0 <= i < |c| ensures c[i].kind in maps {
      if i == 0 {
        OutermostMembers(assoc, Heads(assoc), c[0]);
        var k :| 0 <= k < |assoc| && assoc[k][0] == c[0];
      } else {
        assert Contains(assoc, c[i - 1], c[i]);
      }
    }
  }

  /** An entity of an association is the end of a chain from a topmost one. */
  lemma {:induction false} EveryEntityFromTop(assoc: Associations, rank: Identity -> nat, k: nat, i: nat)
    requires Ranked(assoc, rank) && k < |assoc| && i < |assoc[k]|
    ensures exists c :: FromTop(assoc, c, assoc[k][i])
  {
    TopmostLeadToAll(assoc, rank, k);
    var c :| FromTop(assoc, c, assoc[k][0]);
    if i > 0 {
      var m := assoc[k][i];
      assert Contains(assoc, c[|c| - 1], m);
      LinkedAppend(assoc, c, m);
      assert FromTop(assoc, c + [m], m);
    }
  }

  ghost predicate StoredFrom(
    assoc: Associations, maps: map<nat, string>, rank: Identity -> nat, base: Path, top: Node, x: Visit)
    requires Ranked(assoc, rank)
  {
    top in Outermost(assoc, Heads(assoc)) && x in Visits(assoc, maps, rank, base, top)
  }

  /**
   Where containment is acyclic and all types are mapped, walking down from the topmost entities makes an update for
   every entity of every association.
   */
  lemma {:induction false} EveryEntityIsVisited(
    assoc: Associations, maps: map<nat, string>, rank: Identity -> nat, base: Path, k: nat, i: nat)
    requires Ranked(assoc, rank) && k < |assoc| && i < |assoc[k]| && AllTypesMapped(assoc, maps)
    ensures exists top, x :: StoredFrom(assoc, maps, rank, base, top, x) && Id(x.node) == Id(assoc[k][i])
  {
    EveryEntityFromTop(assoc, rank, k, i);
    var c :| FromTop(assoc, c, assoc[k][i]);
    ChainFromTopIsMapped(assoc, maps, c);
    var x := Visit(base + PathOf(maps, c), c[|c| - 1]);
    ChainIsVisited(assoc, maps, rank, base, c[0], c, x);
    assert StoredFrom(assoc, maps, rank, base, c[0], x);
  }

  // ----- what the paths look like

  predicate IsDigit(c: char) { '0' <= c <= '9' }

  function DigitValue(c: char): nat
    requires IsDigit(c)
  {
    c as int - '0' as int
  }

  /** A decimal number without a leading zero. */
  predicate IsDecimal(ds: string) {
    && ds != [] && (forall i | 0 <= i < |ds| :: IsDigit(ds[i]))
    && (|ds| > 1 ==> ds[0] != '0')
  }

  /** Its value, read from the left. */
  function ValueOf(ds: string): nat
    requires forall i | 0 <= i < |ds| :: IsDigit(ds[i])
  {
    if ds == [] then 0 else 10 * ValueOf(ds[..|ds| - 1]) + DigitValue(ds[|ds| - 1])
  }

  lemma {:induction false} DigitsAreDecimal(n: nat)
    ensures IsDecimal(Digits(n)) && ValueOf(Digits(n)) == n && (n > 0 ==> Digits(n)[0] != '0')
    decreases n
  {
    if n < 10 {
      assert Digits(n)[..0] == [];
    } else {
      var front, last := Digits(n / 10), Digits(n % 10);
      DigitsAreDecimal(n / 10);
      DigitsAreDecimal(n % 10);
      assert Digits(n) == front + last && |last| == 1;
      assert Digits(n)[..|front|] == front;
      assert ValueOf(last) == DigitValue(last[0]) by { assert last[..0] == []; }
    }
  }

  lemma {:induction false} LeadingDigitCounts(ds: string)
    requires IsDecimal(ds) && ds[0] != '0'
    ensures ValueOf(ds) > 0
    decreases |ds|
  {
    if |ds| == 1 {
      assert ds[..0] == [];
    } else {
      LeadingDigitCounts(ds[..|ds| - 1]);
    }
  }

  lemma {:induction false} FrontIsDecimal(ds: string)
    requires IsDecimal(ds) && |ds| > 1
    ensures var front := ds[..|ds| - 1]; IsDecimal(front) && ValueOf(front) > 0
  {
    LeadingDigitCounts(ds[..|ds| - 1]);
  }

  lemma {:induction false} DigitOfValue(c: char)
    requires IsDigit(c)
    ensures DigitValue(c) < 10 && Digits(DigitValue(c)) == [c]
  {
  }

  lemma {:induction false} DigitsAppend(n: nat, d: nat)
    requires n > 0 && d < 10
    ensures Digits(10 * n + d) == Digits(n) + Digits(d)
  {
    assert (10 * n + d) / 10 == n && (10 * n + d) % 10 == d;
  }

  /** There is only one for each value. */
  lemma {:induction false} DecimalIsDigits(ds: string)
    requires IsDecimal(ds)
    ensures ds == Digits(ValueOf(ds))
    decreases |ds|
  {
    var front, c := ds[..|ds| - 1], ds[|ds| - 1];
    var tens, ones := ValueOf(front), DigitValue(c);
    assert ds == front + [c] && ValueOf(ds) == 10 * tens + ones;
    DigitOfValue(c);
    if front != [] {
      FrontIsDecimal(ds);
      DecimalIsDigits(front);
      DigitsAppend(tens, ones);
    }
  }

  /** A path component that names an entity: the name of its type, then its instance number in decimal. */
  ghost predicate Names(maps: map<nat, string>, n: Node, component: string) {
    n.kind in maps && exists ds :: IsDecimal(ds) && ValueOf(ds) == n.instance && component == maps[n.kind] + ds
  }

  lemma {:induction false} NamesIff(maps: map<nat, string>, n: Node, component: string)
    requires n.kind in maps
    ensures Names(maps, n, component) <==> component == Component(maps, n)
  {
    DigitsAreDecimal(n.instance);
    if Names(maps, n, component) {
      var ds :| IsDecimal(ds) && ValueOf(ds) == n.instance && component == maps[n.kind] + ds;
      DecimalIsDigits(ds);
    }
  }

  /** A chain of entities from n down to v, each of a type that has a name, and the path that their names make. */
  ghost predicate NamesChain(
    assoc: Associations, maps: map<nat, string>, base: Path, n: Node, c: seq<Node>, p: Path, v: Node)
  {
    && c != [] && c[0] == n && c[|c| - 1] == v
    && (forall i | 0 <= i < |c| - 1 :: Contains(assoc, c[i], c[i + 1]))
    && |p| == |base| + |c| && p[..|base|] == base
    && (forall i | 0 <= i < |c| :: Names(maps, c[i], p[|base| + i]))
  }

  lemma {:induction false} SpellsIsNamesChain(
    assoc: Associations, maps: map<nat, string>, base: Path, n: Node, c: seq<Node>, p: Path, v: Node)
    ensures Spells(assoc, maps, base, n, c, p, v) <==> NamesChain(assoc, maps, base, n, c, p, v)
  {
    if Spells(assoc, maps, base, n, c, p, v) {
      forall i | 0 <= i < |c| ensures Names(maps, c[i], p[|base| + i]) {
        NamesIff(maps, c[i], p[|base| + i]);
      }
    }
    if NamesChain(assoc, maps, base, n, c, p, v) {
      forall i | 0 <= i < |c| ensures c[i].kind in maps && p[|base| + i] == Component(maps, c[i]) {
        assert Names(maps, c[i], p[|base| + i]);
        NamesIff(maps, c[i], p[|base| + i]);
      }
      assert AllMapped(maps, c);
      assert p == base + PathOf(maps, c);
    }
  }

  /** The path is made by the names of some chain from the entity. */
  ghost predicate NamedPath(assoc: Associations, maps: map<nat, string>, base: Path, n: Node, p: Path) {
    exists c, v :: NamesChain(assoc, maps, base, n, c, p, v)
  }

  /**
   The keys of the map after the recursion are those of before and the paths that the names of chains make, type name
   and decimal instance at each level, as far as D-Bus does not know them; each stands for the end of such a chain.
   */
  lemma {:induction false} KeysAreNamedChains(
    assoc: Associations, maps: map<nat, string>, rank: Identity -> nat, base: Path, n: Node,
    m: PathMap, onBus: Path -> bool, p: Path)
    requires Ranked(assoc, rank)
    ensures var r := PutAll(m, onBus, Visits(assoc, maps, rank, base, n));
            && (p in r <==> p in m || (NamedPath(assoc, maps, base, n, p) && !onBus(p)))
            && (p in r && NamedPath(assoc, maps, base, n, p) ==>
                  exists c :: NamesChain(assoc, maps, base, n, c, p, r[p]))
            && (p in r && !NamedPath(assoc, maps, base, n, p) ==> r[p] == m[p])
  {
    PathsAreChains(assoc, maps, rank, base, n, m, onBus, p);
    forall c, v ensures Spells(assoc, maps, base, n, c, p, v) <==> NamesChain(assoc, maps, base, n, c, p, v) {
      SpellsIsNamesChain(assoc, maps, base, n, c, p, v);
    }
  }

  /** Entities of one type under one path share their path exactly when their instances are equal. */
  lemma {:induction false} SiblingsShareIff(maps: map<nat, string>, a: Node, b: Node, pa: string, pb: string)
    requires a.kind == b.kind && Names(maps, a, pa) && Names(maps, b, pb)
    ensures pa == pb <==> a.instance == b.instance
  {
    NamesIff(maps, a, pa);
    NamesIff(maps, b, pb);
    DigitsAreDecimal(a.instance);
    DigitsAreDecimal(b.instance);
    if pa == pb {
      assert pa[|maps[a.kind]|..] == Digits(a.instance) && pb[|maps[b.kind]|..] == Digits(b.instance);
    }
  }

  /** Where chains share a path, the last update of the path stands. */
  lemma {:induction false} LastVisitStands(m: PathMap, onBus: Path -> bool, xs: seq<Visit>, i: nat)
    requires i < |xs| && forall j | i < j < |xs| :: xs[j].path != xs[i].path
    ensures xs[i].path in PutAll(m, onBus, xs) ==> PutAll(m, onBus, xs)[xs[i].path] == xs[i].node
    decreases |xs|
  {
    var last := |xs| - 1;
    if i < last {
      LastVisitStands(m, onBus, xs[..last], i);
    }
  }
}
