/** dpdk-lb-tree.c: flows kept in an unbalanced binary search tree. */
module LbTree {
  import opened Words
  import opened LbSpec

  /** `operator<`: by address, then protocol, then port. */
  predicate Less(a: Key, b: Key)
  {
    if a.srcIp != b.srcIp then a.srcIp < b.srcIp
    else if a.proto != b.proto then a.proto < b.proto
    else a.srcPort < b.srcPort
  }

  lemma Trichotomy(a: Key, b: Key)
    ensures a == b || Less(a, b) || Less(b, a)
    ensures !(Less(a, b) && Less(b, a)) && !Less(a, a)
  {
  }

  /** The way down to a node. */
  datatype Path = Top | Down(up: Path, right: bool)

  class Node {
    var left: Node?
    var right: Node?
    const key: Key
    var value: u32
    ghost const path: Path

    constructor (key: Key, ghost path: Path)
      ensures left == null && right == null && value == 0 && this.key == key && this.path == path
    {
      left, right, value := null, null, 0;
      this.key, this.path := key, path;
    }
  }

  /** Where a node pointer is stored: what the source walks as a pointer to a pointer. */
  datatype Place = Root | Child(of: Node, right: bool)

  function Depth(p: Path): nat
  {
    if p.Top? then 0 else 1 + Depth(p.up)
  }

  /** `q` is at or under `p`. */
  predicate Under(p: Path, q: Path)
  {
    p == q || (q.Down? && Under(p, q.up))
  }

  /** Which way the path from `p` to `q` sets out. */
  function Side(p: Path, q: Path): bool
    requires Under(p, q) && p != q
  {
    if q.up == p then q.right else Side(p, q.up)
  }

  lemma {:induction false} SideUnder(p: Path, q: Path)
    requires Under(p, q) && p != q
    ensures Under(Down(p, Side(p, q)), q)
  {
    if q.up != p { SideUnder(p, q.up); }
  }

  lemma {:induction false} UnderDeeper(p: Path, right: bool, q: Path)
    requires Under(Down(p, right), q)
    ensures Under(p, q) && Depth(p) < Depth(q)
  {
    if q != Down(p, right) { UnderDeeper(p, right, q.up); }
  }

  /** Keys right of a node are greater and keys left of it are smaller. */
  ghost predicate Ordered(nodes: map<Path, Node>)
  {
    forall p, q | p in nodes && q in nodes && Under(p, q) && p != q ::
      if Side(p, q) then Less(nodes[p].key, nodes[q].key) else Less(nodes[q].key, nodes[p].key)
  }

  /** Every node is where `paths` says its key is, so keys are stored once. */
  ghost predicate Located(nodes: map<Path, Node>, paths: map<Key, Path>)
  {
    && (forall p | p in nodes :: nodes[p].path == p && nodes[p].key in paths && paths[nodes[p].key] == p)
    && (forall k | k in paths :: paths[k] in nodes && nodes[paths[k]].key == k)
  }

  lemma LocatedApart(nodes: map<Path, Node>, paths: map<Key, Path>)
    requires Located(nodes, paths)
    ensures forall q | q in nodes :: nodes[q].path == q
  {
  }

  lemma KeyOnce(nodes: map<Path, Node>, paths: map<Key, Path>, p: Path)
    requires Located(nodes, paths) && p in nodes
    ensures nodes[p].key in paths
    ensures forall q | q in nodes && q != p :: nodes[q].key != nodes[p].key
  {
  }

  lemma GrownLocated(nodes: map<Path, Node>, paths: map<Key, Path>, p: Path, n: Node)
    requires Located(nodes, paths) && p !in nodes && n.path == p && n.key !in paths
    ensures Located(nodes[p := n], paths[n.key := p])
  {
  }

  /** A walk for `key` that has come to `p` went the right way at every node above. */
  ghost predicate Towards(nodes: map<Path, Node>, key: Key, p: Path)
  {
    && (forall q | q in nodes && Under(q, p) && q != p :: nodes[q].key != key && Side(q, p) == Less(nodes[q].key, key))
    && (forall q | q in nodes && nodes[q].key == key :: Under(p, q))
  }

  lemma {:induction false} UnderTop(q: Path)
    ensures Under(Top, q)
  {
    if q.Down? { UnderTop(q.up); }
  }

  lemma TowardsTop(nodes: map<Path, Node>, key: Key)
    ensures Towards(nodes, key, Top)
  {
    forall q | q in nodes && nodes[q].key == key ensures Under(Top, q) {
      UnderTop(q);
    }
  }

  lemma StepDown(nodes: map<Path, Node>, key: Key, p: Path)
    requires Ordered(nodes) && Towards(nodes, key, p) && p in nodes && nodes[p].key != key
    ensures Towards(nodes, key, Down(p, Less(nodes[p].key, key)))
  {
    var r := Less(nodes[p].key, key);
    Trichotomy(nodes[p].key, key);
    forall q | q in nodes && nodes[q].key == key ensures Under(Down(p, r), q) {
      assert Under(p, q) && p != q;
      SideUnder(p, q);
    }
  }

  /** A node hung where the walk for its key ended keeps the order. */
  lemma GrownOrdered(nodes: map<Path, Node>, p: Path, n: Node)
    requires Ordered(nodes) && Towards(nodes, n.key, p) && forall q | q in nodes :: !Under(p, q)
    ensures Ordered(nodes[p := n])
  {
    var nodes' := nodes[p := n];
    forall x, y | x in nodes' && y in nodes' && Under(x, y) && x != y
      ensures if Side(x, y) then Less(nodes'[x].key, nodes'[y].key) else Less(nodes'[y].key, nodes'[x].key)
    {
      if y == p {
        Trichotomy(nodes[x].key, n.key);
      }
    }
  }

  /** `calloc` leaves a new node with value 0. */
  function ValueIn(contents: map<Key, u32>, k: Key): u32
  {
    if k in contents then contents[k] else 0
  }

  ghost function NodeAt(nodes: map<Path, Node>, p: Path): Node?
  {
    if p in nodes then nodes[p] else null
  }

  /** The fields the node at `p` must have. */
  ghost predicate Fits(nodes: map<Path, Node>, contents: map<Key, u32>, p: Path, left: Node?, right: Node?, value: u32)
    requires p in nodes
  {
    && left == NodeAt(nodes, Down(p, false)) && right == NodeAt(nodes, Down(p, true))
    && (p.Down? ==> p.up in nodes)
    && value == ValueIn(contents, nodes[p].key)
  }

  lemma FitsNew(nodes: map<Path, Node>, contents: map<Key, u32>, p: Path, n: Node)
    requires Down(p, false) !in nodes && Down(p, true) !in nodes && (p.Down? ==> p.up in nodes) && n.key !in contents
    ensures Fits(nodes[p := n], contents, p, null, null, 0)
  {
  }

  lemma FitsOld(nodes: map<Path, Node>, contents: map<Key, u32>, p: Path, n: Node, q: Path, left: Node?, right: Node?, value: u32)
    requires q in nodes && p !in nodes && Fits(nodes, contents, q, left, right, value)
    ensures Fits(nodes[p := n], contents, q, if p == Down(q, false) then n else left, if p == Down(q, true) then n else right, value)
  {
  }

  class Tree {
    var root: Node?
    ghost var nodes: map<Path, Node>
    ghost var paths: map<Key, Path>      // where each key is
    ghost var contents: map<Key, u32>    // the finite map the tree stands for

    ghost function At(p: Path): Node?
      reads this
    {
      NodeAt(nodes, p)
    }

    ghost predicate Placed(p: Path)
      requires p in nodes
      reads this, nodes[p]
    {
      Fits(nodes, contents, p, nodes[p].left, nodes[p].right, nodes[p].value)
    }

    /** A well-formed search tree, in which a key may still be waiting for its value. */
    ghost predicate Shaped()
      reads this, nodes.Values
    {
      && root == At(Top)
      && (forall p {:trigger Placed(p)} | p in nodes :: Placed(p))
      && Ordered(nodes) && Located(nodes, paths)
      && contents.Keys <= paths.Keys
    }

    ghost predicate Valid()
      reads this, nodes.Values
    {
      Shaped() && contents.Keys == paths.Keys
    }

    /** `hash_init` */
    constructor ()
      ensures Valid() && contents == map[] && nodes == map[]
    {
      root := null;
      nodes, paths, contents := map[], map[], map[];
    }

    function Load(place: Place): Node?
      reads this, if place.Child? then {place.of} else {}
    {
      match place
      case Root => root
      case Child(n, right) => if right then n.right else n.left
    }

    /** `place` is where the node at the end of `p` belongs. */
    ghost predicate Leads(place: Place, p: Path)
      reads this
    {
      if p.Top? then place == Root else p.up in nodes && place == Child(nodes[p.up], p.right)
    }

    lemma LoadIsAt(place: Place, p: Path)
      requires Shaped() && Leads(place, p)
      ensures Load(place) == At(p)
    {
      hide Ordered;
      if p.Down? {
        assert Placed(p.up);
      }
    }

    /** Without a node at `p` there is none further down. */
    lemma {:induction false} NoneBelow(p: Path, q: Path)
      requires Shaped() && p !in nodes && Under(p, q)
      ensures q !in nodes
      decreases q
    {
      hide Ordered;
      if p != q {
        NoneBelow(p, q.up);
        assert q in nodes ==> Placed(q);
      }
    }

    lemma NotThere(key: Key, p: Path)
      requires Shaped() && Towards(nodes, key, p) && p !in nodes
      ensures key !in paths
      ensures forall q | q in nodes :: !Under(p, q)
    {
      forall q | q in nodes ensures !Under(p, q) {
        if Under(p, q) { NoneBelow(p, q); }
      }
    }

    /** The nodes still to come: those at or under `p`. */
    ghost function Remaining(p: Path): set<Path>
      reads this
    {
      set q | q in nodes && Under(p, q)
    }

    lemma DownShrinks(p: Path, right: bool)
      requires p in nodes
      ensures Remaining(Down(p, right)) < Remaining(p)
    {
      forall q | Under(Down(p, right), q) ensures Under(p, q) && q != p {
        UnderDeeper(p, right, q);
      }
      assert p in Remaining(p) && p !in Remaining(Down(p, right));
    }

    /** `hash_get` */
    method Get(key: Key) returns (found: bool, value: u32)
      requires Valid()
      ensures found <==> key in contents
      ensures found ==> value == contents[key]
    {
      hide Ordered, Towards;
      var pos := root;
      ghost var p := Top;
      TowardsTop(nodes, key);
      while pos != null && pos.key != key
        invariant pos == At(p) && Towards(nodes, key, p)
        decreases Remaining(p)
      {
        assert Placed(p);
        StepDown(nodes, key, p);
        if Less(pos.key, key) {
          pos := pos.right;
        } else {
          pos := pos.left;
        }
        DownShrinks(p, Less(nodes[p].key, key));
        p := Down(p, Less(nodes[p].key, key));
      }
      if pos != null {
        assert Placed(p);
        return true, pos.value;
      }
      NotThere(key, p);
      return false, 0;
    }

    /** Where a walk for `key` falls off the tree there is room for a node. */
    lemma Vacant(place: Place, key: Key, p: Path)
      requires Valid() && Leads(place, p) && Load(place) == null && Towards(nodes, key, p)
      ensures p !in nodes && Down(p, false) !in nodes && Down(p, true) !in nodes && (p.Down? ==> p.up in nodes)
      ensures key !in paths && forall q | q in nodes :: nodes[q].path == q && !Under(p, q)
    {
      hide Ordered, Towards, Under, Located;
      LocatedApart(nodes, paths);
      LoadIsAt(place, p);
      NotThere(key, p);
      assert forall b | Down(p, b) in nodes :: Placed(Down(p, b));
    }

    method Store(place: Place, n: Node)
      modifies this`root, if place.Child? then {place.of} else {}
      ensures root == if place.Root? then n else old(root)
      ensures place.Child? ==> place.of.left == (if place.right then old(place.of.left) else n)
                               && place.of.right == (if place.right then n else old(place.of.right))
                               && place.of.value == old(place.of.value)
      ensures unchanged(`nodes, `paths, `contents)
    {
      match place {
        case Root => root := n;
        case Child(parent, right) =>
          if right { parent.right := n; } else { parent.left := n; }
      }
    }

    /** Hangs a new node for `key` at `place`. */
    method Grow(place: Place, key: Key, ghost p: Path) returns (n: Node)
      requires Valid() && Leads(place, p) && Load(place) == null && Towards(nodes, key, p)
      modifies this, if place.Child? then {place.of} else {}
      ensures fresh(n) && n.key == key && n.path == p && nodes == old(nodes)[p := n]
      ensures paths == old(paths)[key := p] && contents == old(contents)
      ensures Shaped()
    {
      hide Ordered, Towards, Under, Located, Fits;
      ghost var was, wasPaths := nodes, paths;
      Vacant(place, key, p);
      n := new Node(key, p);
      FitsNew(nodes, contents, p, n);
      GrownOrdered(nodes, p, n);
      GrownLocated(nodes, paths, p, n);
      Store(place, n);
      nodes, paths := was[p := n], wasPaths[key := p];
      assert Placed(p);
      forall q | q in was ensures Placed(q) {
        assert old(Placed(q));
        FitsOld(was, contents, p, n, q, old(nodes[q].left), old(nodes[q].right), old(nodes[q].value));
      }
    }

    /** `hash_set` */
    method Set(key: Key, value: u32)
      requires Valid()
      modifies this, nodes.Values
      ensures Valid() && contents == old(contents)[key := value]
      ensures forall p | p in nodes :: (p in old(nodes) && nodes[p] == old(nodes)[p]) || fresh(nodes[p])
    {
      hide Ordered, Towards, Under, Located;
      LocatedApart(nodes, paths);
      var place := Root;
      ghost var p := Top;
      TowardsTop(nodes, key);
      var pos := root;
      while pos != null && pos.key != key
        invariant Leads(place, p) && pos == Load(place) == At(p) && Towards(nodes, key, p)
        decreases Remaining(p)
        modifies {}
      {
        assert Placed(p);
        StepDown(nodes, key, p);
        ghost var right := Less(nodes[p].key, key);
        DownShrinks(p, right);
        if Less(pos.key, key) {
          place := Child(pos, true);
        } else {
          place := Child(pos, false);
        }
        p := Down(p, right);
        LoadIsAt(place, p);
        pos := Load(place);
      }
      if pos == null {
        pos := Grow(place, key, p);
      }
      SetValue(pos, value);
    }

    method SetValue(n: Node, value: u32)
      requires Shaped() && n.path in nodes && nodes[n.path] == n
      modifies this`contents, n
      ensures Shaped() && contents == old(contents)[n.key := value] && n.key in paths
    {
      hide Ordered, Located;
      LocatedApart(nodes, paths);
      KeyOnce(nodes, paths, n.path);
      ghost var was := contents;
      n.value := value;
      contents := was[n.key := value];
      forall q | q in nodes ensures Placed(q) {
        assert old(Placed(q));
        assert q != n.path ==> nodes[q] != n;
      }
    }
  }

  /** The incoming half of `dispatch_packet`. */
  class Balancer {
    const dips: seq<u32>
    const table: Tree
    var nextDip: int

    ghost predicate Valid()
      reads this, table, table.nodes.Values
    {
      table.Valid() && 0 <= nextDip < |dips|
    }

    ghost function Now(): Lb
      reads this, table
    {
      Lb(table.contents, nextDip)
    }

    constructor (dips: seq<u32>)
      requires 0 < |dips|
      ensures Valid() && Now() == Lb(map[], 0) && this.dips == dips
      ensures fresh(table) && table.nodes == map[]
    {
      this.dips := dips;
      table := new Tree();
      nextDip := 0;
    }

    method Choose(key: Key) returns (server: u32)
      requires Valid()
      modifies this, table, table.nodes.Values
      ensures Valid()
      ensures forall p | p in table.nodes ::
                (p in old(table.nodes) && table.nodes[p] == old(table.nodes)[p]) || fresh(table.nodes[p])
      ensures server == Server(dips, old(Now()), key)
      ensures Now() == Step(dips, UNBOUNDED, old(Now()), key)
    {
      hide Tree.Valid;
      var found;
      found, server := table.Get(key);
      if !found {
        server := dips[nextDip];
        nextDip := nextDip + 1;
        if nextDip >= |dips| || dips[nextDip] == 0 {
          nextDip := 0;
        }
        table.Set(key, server);
      }
    }
  }

  /** The packets of a whole trace, one after the other. */
  method Serve(dips: seq<u32>, keys: seq<Key>) returns (servers: seq<u32>)
    requires 0 < |dips|
    ensures servers == Servers(dips, UNBOUNDED, Lb(map[], 0), keys)
  {
    hide Tree.Valid, Server, Step, Servers, Final;
    var lb := new Balancer(dips);
    servers := [];
    ghost var start := Lb(map[], 0);
    ServersEmpty(dips, UNBOUNDED, start);
    var i := 0;
    while i < |keys|
      invariant 0 <= i <= |keys| && lb.Valid() && lb.dips == dips
      invariant fresh(lb) && fresh(lb.table) && forall p | p in lb.table.nodes :: fresh(lb.table.nodes[p])
      invariant servers == Servers(dips, UNBOUNDED, start, keys[..i])
      invariant lb.Now() == Final(dips, UNBOUNDED, start, keys[..i])
    {
      ServersMore(dips, UNBOUNDED, start, keys[..i], keys[i]);
      assert keys[..i + 1] == keys[..i] + [keys[i]];
      var server := lb.Choose(keys[i]);
      servers := servers + [server];
      i := i + 1;
    }
    assert keys[..|keys|] == keys;
  }
}
