/** The universal orbit map of 2019 day 6: named bodies, each orbiting at most one parent,
    stored as a forest of spheres of influence indexed by id. */
module OrbitMap {
  import opened Outcomes
  import opened Ordering
  import opened Text

  /** `Orbit`: `child` orbits `parent`. */
  datatype Orbit = Orbit(parent: string, child: string)

  /** `build_orbit`: the first two `)`-separated pieces of a line; a line without `)`
      panics on `names[1]`. */
  function BuildOrbit(line: string): (r: Option<Orbit>)
    ensures r.Some? <==> ')' in line
    ensures r.Some? ==> ')' !in r.value.parent && ')' !in r.value.child
    ensures r.Some? ==> r.value.parent + [')'] + r.value.child <= line
  {
    var names := Split(line, ')');
    SplitJoin(line, ')');
    if |names| < 2 then
      None
    else
      JoinPrefix(names, 2, ')');
      assert names[..2][..1] == [names[0]];
      Some(Orbit(names[0], names[1]))
  }

  /** Joining the first `k` pieces gives a prefix of joining them all. */
  lemma {:induction false} JoinPrefix(pieces: seq<string>, k: nat, sep: char)
    requires 1 <= k <= |pieces|
    ensures Join(pieces[..k], sep) <= Join(pieces, sep)
    decreases |pieces|
  {
    if k < |pieces| {
      var n := |pieces| - 1;
      assert pieces[..n][..k] == pieces[..k];
      JoinPrefix(pieces[..n], k, sep);
    } else {
      assert pieces[..k] == pieces;
    }
  }

  /** Rust's `Ord` on `&str`: byte-wise, hence character-wise, lexicographic order. */
  predicate StrLess(a: string, b: string)
  {
    if |a| == 0 then |b| > 0
    else if |b| == 0 then false
    else if a[0] != b[0] then a[0] < b[0]
    else StrLess(a[1..], b[1..])
  }

  lemma {:induction false} StrLessIrreflexive(a: string)
    ensures !StrLess(a, a)
  {
    if |a| > 0 {
      StrLessIrreflexive(a[1..]);
    }
  }

  lemma {:induction false} StrLessTransitive(a: string, b: string, c: string)
    requires StrLess(a, b) && StrLess(b, c)
    ensures StrLess(a, c)
  {
    if |a| > 0 && a[0] == b[0] && b[0] == c[0] {
      StrLessTransitive(a[1..], b[1..], c[1..]);
    }
  }

  lemma {:induction false} StrLessTotal(a: string, b: string)
    ensures a == b || StrLess(a, b) || StrLess(b, a)
  {
    if |a| > 0 && |b| > 0 && a[0] == b[0] {
      StrLessTotal(a[1..], b[1..]);
      assert a == [a[0]] + a[1..] && b == [b[0]] + b[1..];
    }
  }

  /** Names sort by a strict total order. */
  lemma StrOrder()
    ensures StrictTotal(StrLess)
  {
    forall a ensures !StrLess(a, a) {
      StrLessIrreflexive(a);
    }
    forall a, b, c | StrLess(a, b) && StrLess(b, c) ensures StrLess(a, c) {
      StrLessTransitive(a, b, c);
    }
    forall a, b ensures a == b || StrLess(a, b) || StrLess(b, a) {
      StrLessTotal(a, b);
    }
  }

  /** Every name the orbits mention, parent before child, in input order. */
  function OrbitNames(orbits: seq<Orbit>): (r: seq<string>)
    ensures forall n :: n in r <==> exists o :: o in orbits && (n == o.parent || n == o.child)
  {
    if orbits == [] then []
    else
      var init := orbits[..|orbits| - 1];
      assert orbits == init + [orbits[|orbits| - 1]];
      OrbitNames(init) + [orbits[|orbits| - 1].parent, orbits[|orbits| - 1].child]
  }

  /** `Iterator::position`: the first index holding `x`. */
  function Position(s: seq<nat>, x: nat): (r: Option<nat>)
    ensures r.None? <==> x !in s
    ensures r.Some? ==> r.value < |s| && s[r.value] == x && x !in s[..r.value]
  {
    if s == [] then None
    else if s[0] == x then Some(0)
    else
      match Position(s[1..], x)
      case None => None
      case Some(i) =>
        assert s[..i + 1] == [s[0]] + s[1..][..i];
        Some(i + 1)
  }

  /** `s` less the first occurrence of `x`, if any. */
  function Without(s: seq<nat>, x: nat): seq<nat>
  {
    match Position(s, x)
    case None => s
    case Some(i) => s[..i] + s[i + 1..]
  }

  /** The child of some orbit is named `name`. */
  predicate Orbits(orbits: seq<Orbit>, name: string)
  {
    exists o :: o in orbits && o.child == name
  }

  /** How far the depth-first search of `path` got. */
  datatype Search = Found(ids: seq<nat>) | Absent | Deeper

  /** `SphereOfInfluence`: a body, its id, and the ids of the bodies orbiting it. */
  datatype SphereOfInfluence = SphereOfInfluence(id: nat, name: string, children: seq<nat>)

  class SolarSystem {
    var entries: seq<SphereOfInfluence>
    var names: map<string, nat>
    var roots: seq<nat>

    /** Ids are positions in `entries`, `names` maps every name to its entry and back, and
        every child and root is the id of an entry. */
    ghost predicate Valid()
      reads this
    {
      (forall i :: 0 <= i < |entries| ==>
        entries[i].id == i && entries[i].name in names && names[entries[i].name] == i)
      && (forall n :: n in names ==> names[n] < |entries| && entries[names[n]].name == n)
      && (forall i, k :: 0 <= i < |entries| && 0 <= k < |entries[i].children| ==>
        entries[i].children[k] < |entries|)
      && RootsInRange()
    }

    /** Every root is the id of an entry. */
    ghost predicate RootsInRange()
      reads this
    {
      forall k :: 0 <= k < |roots| ==> roots[k] < |entries|
    }

    /** `rank` covers the children of every body it covers and ranks each child below its
        parent: the bodies reachable from those it covers form no cycle. Bodies it leaves
        out may orbit one another in a cycle, which the recursive queries never meet. */
    ghost predicate Ranked(rank: map<nat, nat>)
      reads this
    {
      (forall i :: i in rank ==> i < |entries|)
      && forall i, k :: i in rank && 0 <= k < |entries[i].children| ==>
        entries[i].children[k] in rank && rank[entries[i].children[k]] < rank[i]
    }

    /** Every root is covered by `rank`. */
    ghost predicate RootsRanked(rank: map<nat, nat>)
      reads this
    {
      forall k :: 0 <= k < |roots| ==> roots[k] in rank
    }

    /** The empty system `build_system` starts from. */
    constructor()
      ensures entries == [] && names == map[] && roots == []
      ensures Valid()
    {
      entries, names, roots := [], map[], [];
    }

    /** `SolarSystem::add`: a new body with the next id, as a root; adding a name twice
        panics. */
    method Add(name: string) returns (id: nat)
      requires Valid() && name !in names
      modifies this
      ensures id == |old(entries)|
      ensures entries == old(entries) + [SphereOfInfluence(id, name, [])]
      ensures names == old(names)[name := id]
      ensures roots == old(roots) + [id]
      ensures Valid()
    {
      id := |entries|;
      entries := entries + [SphereOfInfluence(id, name, [])];
      names := names[name := id];
      roots := roots + [id];
    }

    /** `SolarSystem::make_orbit`: `child` stops being a root and is appended to the
        children of `parent`. */
    method MakeOrbit(parent: nat, child: nat)
      requires Valid() && parent < |entries| && child < |entries|
      modifies this
      ensures names == old(names)
      ensures entries == old(entries)[parent := old(entries)[parent].(children := old(entries)[parent].children + [child])]
      ensures roots == Without(old(roots), child)
      ensures Valid()
    {
      var index := Position(roots, child);
      if index.Some? {
        roots := roots[..index.value] + roots[index.value + 1..];
        assert forall k :: 0 <= k < |roots| ==> roots[k] in old(roots);
      }
      var entry := entries[parent].(children := entries[parent].children + [child]);
      assert entry.id == parent && entry.name == entries[parent].name;
      assert forall k :: 0 <= k < |entry.children| ==> entry.children[k] < |entries|;
      entries := entries[parent := entry];
    }

    /** `count_direct_indirect(soi, depth)`: `depth` for the body plus the count of each
        child one level deeper. */
    ghost function Total(rank: map<nat, nat>, id: nat, depth: nat): nat
      reads this
      requires Ranked(rank) && id in rank
      decreases rank[id], 1
    {
      depth + ChildTotal(rank, id, |entries[id].children|, depth + 1)
    }

    /** The counts of the first `k` children of `id`. */
    ghost function ChildTotal(rank: map<nat, nat>, id: nat, k: nat, depth: nat): nat
      reads this
      requires Ranked(rank) && id in rank && k <= |entries[id].children|
      decreases rank[id], 0, k
    {
      if k == 0 then 0
      else ChildTotal(rank, id, k - 1, depth) + Total(rank, entries[id].children[k - 1], depth)
    }

    /** How many bodies the subtree at `id` holds. */
    ghost function Size(rank: map<nat, nat>, id: nat): nat
      reads this
      requires Ranked(rank) && id in rank
      decreases rank[id], 1
    {
      1 + ChildSize(rank, id, |entries[id].children|)
    }

    ghost function ChildSize(rank: map<nat, nat>, id: nat, k: nat): nat
      reads this
      requires Ranked(rank) && id in rank && k <= |entries[id].children|
      decreases rank[id], 0, k
    {
      if k == 0 then 0
      else ChildSize(rank, id, k - 1) + Size(rank, entries[id].children[k - 1])
    }

    /** Starting one level deeper adds one for every body of the subtree: the count is the
        sum of the depths of all bodies below `id`. */
    lemma {:induction false} TotalShift(rank: map<nat, nat>, id: nat, depth: nat)
      requires Ranked(rank) && id in rank
      ensures Total(rank, id, depth) == Total(rank, id, 0) + depth * Size(rank, id)
      decreases rank[id], 1
    {
      var n := |entries[id].children|;
      ChildTotalShift(rank, id, n, depth + 1);
      ChildTotalShift(rank, id, n, 1);
    }

    lemma {:induction false} ChildTotalShift(rank: map<nat, nat>, id: nat, k: nat, depth: nat)
      requires Ranked(rank) && id in rank && k <= |entries[id].children|
      ensures ChildTotal(rank, id, k, depth) == ChildTotal(rank, id, k, 0) + depth * ChildSize(rank, id, k)
      decreases rank[id], 0, k
    {
      if k > 0 {
        var c := entries[id].children[k - 1];
        ChildTotalShift(rank, id, k - 1, depth);
        TotalShift(rank, c, depth);
        TotalShift(rank, c, 0);
        assert depth * ChildSize(rank, id, k)
          == depth * ChildSize(rank, id, k - 1) + depth * Size(rank, c);
      }
    }

    /** `SolarSystem::count_direct_indirect` */
    method CountDirectIndirect(ghost rank: map<nat, nat>, id: nat, depth: nat) returns (total: nat)
      requires Ranked(rank) && id in rank
      ensures total == Total(rank, id, depth)
      decreases rank[id]
    {
      total := depth;
      var children := entries[id].children;
      for k := 0 to |children|
        invariant total == depth + ChildTotal(rank, id, k, depth + 1)
      {
        var sub := CountDirectIndirect(rank, children[k], depth + 1);
        total := total + sub;
      }
    }

    /** The counts of the first `k` roots, each starting at depth 0. */
    ghost function RootsTotal(rank: map<nat, nat>, k: nat): nat
      reads this
      requires Ranked(rank) && RootsRanked(rank) && k <= |roots|
    {
      if k == 0 then 0 else RootsTotal(rank, k - 1) + Total(rank, roots[k - 1], 0)
    }

    /** `SolarSystem::count_all_direct_indirect`: the direct and indirect orbits of every
        tree of the forest. */
    method CountAllDirectIndirect(ghost rank: map<nat, nat>) returns (total: nat)
      requires Ranked(rank) && RootsRanked(rank)
      ensures total == RootsTotal(rank, |roots|)
    {
      total := 0;
      for k := 0 to |roots|
        invariant total == RootsTotal(rank, k)
      {
        var sub := CountDirectIndirect(rank, roots[k], 0);
        total := total + sub;
      }
    }

    /** Every child of every body is the id of an entry. */
    ghost predicate Linked()
      reads this
    {
      forall i, k :: 0 <= i < |entries| && 0 <= k < |entries[i].children| ==>
        entries[i].children[k] < |entries|
    }

    /** The depth-first search of `path(start, target)` from body `id`, allowed to recurse
        `fuel` levels deeper: the ids of the chain from `id` down to the first body named
        `target` met through children in order, `Absent` when there is none, or `Deeper`
        when the search needs more levels (as it does forever on a cycle it walks into). */
    ghost function PathIds(fuel: nat, id: nat, target: string): (r: Search)
      reads this
      requires Linked() && id < |entries|
      ensures r.Found? ==> Chain(r.ids, id, target)
      decreases fuel, 1
    {
      if entries[id].name == target then Found([id])
      else FirstPath(fuel, id, 0, target)
    }

    /** The search through the children of `id` from the `k`-th on. */
    ghost function FirstPath(fuel: nat, id: nat, k: nat, target: string): (r: Search)
      reads this
      requires Linked() && id < |entries| && k <= |entries[id].children|
      ensures r.Found? ==> Chain(r.ids, id, target)
      decreases fuel, 0, |entries[id].children| - k
    {
      if k == |entries[id].children| then Absent
      else if fuel == 0 then Deeper
      else
        match PathIds(fuel - 1, entries[id].children[k], target)
        case Found(q) => Found([id] + q)
        case Absent => FirstPath(fuel, id, k + 1, target)
        case Deeper => Deeper
    }

    /** `ids` is a non-empty chain of child links from `id` to a body named `target`. */
    ghost predicate Chain(ids: seq<nat>, id: nat, target: string)
      reads this
    {
      && |ids| > 0 && ids[0] == id
      && (forall i :: 0 <= i < |ids| ==> ids[i] < |entries|)
      && entries[ids[|ids| - 1]].name == target
      && forall i :: 0 <= i < |ids| - 1 ==> ids[i + 1] in entries[ids[i]].children
    }

    /** A search that finishes within `fuel` levels gives the same answer with more: the
        answer does not depend on the bound. */
    lemma {:induction false} PathMoreFuel(fuel: nat, more: nat, id: nat, target: string)
      requires Linked() && id < |entries| && fuel <= more
      requires !PathIds(fuel, id, target).Deeper?
      ensures PathIds(more, id, target) == PathIds(fuel, id, target)
      decreases fuel, 1
    {
      if entries[id].name != target {
        FirstPathMoreFuel(fuel, more, id, 0, target);
      }
    }

    lemma {:induction false} FirstPathMoreFuel(fuel: nat, more: nat, id: nat, k: nat, target: string)
      requires Linked() && id < |entries| && k <= |entries[id].children| && fuel <= more
      requires !FirstPath(fuel, id, k, target).Deeper?
      ensures FirstPath(more, id, k, target) == FirstPath(fuel, id, k, target)
      decreases fuel, 0, |entries[id].children| - k
    {
      if k < |entries[id].children| {
        var c := entries[id].children[k];
        PathMoreFuel(fuel - 1, more - 1, c, target);
        if PathIds(fuel - 1, c, target).Absent? {
          FirstPathMoreFuel(fuel, more, id, k + 1, target);
        }
      }
    }

    /** Some body of the subtree at `id` is named `target`. */
    ghost predicate InSubtree(rank: map<nat, nat>, id: nat, target: string)
      reads this
      requires Ranked(rank) && id in rank
      decreases rank[id], 1
    {
      entries[id].name == target || InChildren(rank, id, 0, target)
    }

    ghost predicate InChildren(rank: map<nat, nat>, id: nat, k: nat, target: string)
      reads this
      requires Ranked(rank) && id in rank && k <= |entries[id].children|
      decreases rank[id], 0, |entries[id].children| - k
    {
      k < |entries[id].children|
      && (InSubtree(rank, entries[id].children[k], target) || InChildren(rank, id, k + 1, target))
    }

    /** Where the bodies below `id` form no cycle, the search finishes within as many levels
        as the rank of `id`, and finds a path exactly when the target is in the subtree. */
    lemma {:induction false} PathFound(rank: map<nat, nat>, fuel: nat, id: nat, target: string)
      requires Linked() && Ranked(rank) && id in rank && rank[id] <= fuel
      ensures !PathIds(fuel, id, target).Deeper?
      ensures PathIds(fuel, id, target).Found? <==> InSubtree(rank, id, target)
      decreases rank[id], 1
    {
      if entries[id].name != target {
        FirstPathFound(rank, fuel, id, 0, target);
      }
    }

    lemma {:induction false} FirstPathFound(rank: map<nat, nat>, fuel: nat, id: nat, k: nat, target: string)
      requires Linked() && Ranked(rank) && id in rank && rank[id] <= fuel && k <= |entries[id].children|
      ensures !FirstPath(fuel, id, k, target).Deeper?
      ensures FirstPath(fuel, id, k, target).Found? <==> InChildren(rank, id, k, target)
      decreases rank[id], 0, |entries[id].children| - k
    {
      if k < |entries[id].children| {
        var c := entries[id].children[k];
        assert c in rank && rank[c] < rank[id];
        PathFound(rank, fuel - 1, c, target);
        FirstPathFound(rank, fuel, id, k + 1, target);
      }
    }

    /** The names along a chain of ids. */
    function Names(ids: seq<nat>): (r: seq<string>)
      reads this
      requires forall i :: 0 <= i < |ids| ==> ids[i] < |entries|
      ensures |r| == |ids| && forall i :: 0 <= i < |ids| ==> r[i] == entries[ids[i]].name
    {
      seq(|ids|, i requires 0 <= i < |ids| && ids[i] < |entries| reads this => entries[ids[i]].name)
    }

    /** What `path(start, target)` returns: the names along the chain found, or nothing. */
    ghost function PathNames(fuel: nat, id: nat, target: string): (p: seq<string>)
      reads this
      requires Linked() && id < |entries|
      ensures p != [] <==> PathIds(fuel, id, target).Found?
    {
      match PathIds(fuel, id, target)
      case Found(ids) => Names(ids)
      case _ => []
    }

    /** When the search first succeeds through child `k`, the path is `start` followed by
        that child's path. */
    lemma PathThrough(fuel: nat, start: nat, k: nat, target: string)
      requires Linked() && start < |entries| && k < |entries[start].children| && 0 < fuel
      requires entries[start].name != target
      requires PathIds(fuel, start, target) == FirstPath(fuel, start, k, target)
      requires PathIds(fuel - 1, entries[start].children[k], target).Found?
      ensures PathNames(fuel, start, target)
        == [entries[start].name] + PathNames(fuel - 1, entries[start].children[k], target)
    {
      var ids := PathIds(fuel - 1, entries[start].children[k], target).ids;
      assert PathIds(fuel, start, target) == Found([start] + ids);
      NamesCons(start, ids);
    }

    /** The names along `[id] + ids`: the name of `id`, then those along `ids`. */
    lemma NamesCons(id: nat, ids: seq<nat>)
      requires id < |entries| && forall i :: 0 <= i < |ids| ==> ids[i] < |entries|
      ensures Names([id] + ids) == [entries[id].name] + Names(ids)
    {
      var whole := [id] + ids;
      assert forall i :: 0 <= i < |ids| ==> whole[i + 1] == ids[i];
    }

    /** `SolarSystem::path`: the names from `start` down to `target`, or none. The ghost
        `fuel` is a depth within which the recursion finishes; the source needs no such bound
        where it returns at all. */
    method Path(ghost fuel: nat, start: nat, target: string) returns (p: seq<string>)
      requires Linked() && start < |entries| && !PathIds(fuel, start, target).Deeper?
      ensures p == PathNames(fuel, start, target)
      decreases fuel
    {
      if entries[start].name == target {
        return [entries[start].name];
      }
      var children := entries[start].children;
      for k := 0 to |children|
        invariant PathIds(fuel, start, target) == FirstPath(fuel, start, k, target)
      {
        var q := Path(fuel - 1, children[k], target);
        if q != [] {
          PathThrough(fuel, start, k, target);
          return [entries[start].name] + q;
        }
      }
      return [];
    }

    /** `|p1hs.symmetric_difference(&p2hs)| - 2`, where the `usize` subtraction panics
        below zero. */
    static function TransferCount(p1: seq<string>, p2: seq<string>): (r: Result<nat, ()>)
      ensures r.Ok? <==> |SymmetricDifference(p1, p2)| >= 2
      ensures r.Ok? ==> r.value + 2 == |SymmetricDifference(p1, p2)|
    {
      var d := |SymmetricDifference(p1, p2)|;
      if d < 2 then Err(()) else Ok(d - 2)
    }

    /** The searches from `roots[k]` find both targets. */
    ghost predicate BothFound(fuel: nat, k: nat, target1: string, target2: string)
      reads this
      requires Linked() && RootsInRange() && k < |roots|
    {
      PathIds(fuel, roots[k], target1).Found? && PathIds(fuel, roots[k], target2).Found?
    }

    /** Root `roots[k]` is the first from which both targets are found. */
    ghost predicate FirstCommonRoot(fuel: nat, k: nat, target1: string, target2: string)
      reads this
      requires Linked() && RootsInRange()
    {
      k < |roots| && BothFound(fuel, k, target1, target2) && NoCommonRoot(fuel, k, target1, target2)
    }

    /** From none of the first `k` roots are both targets found. */
    ghost predicate NoCommonRoot(fuel: nat, k: nat, target1: string, target2: string)
      reads this
      requires Linked() && RootsInRange() && k <= |roots|
    {
      forall j :: 0 <= j < k ==> !BothFound(fuel, j, target1, target2)
    }

    /** Both searches finish within `fuel` levels from every root the loop of `transfers`
        reaches: each root up to and including the first from which both targets are found. */
    ghost predicate SearchesFinish(fuel: nat, target1: string, target2: string)
      reads this
      requires Linked() && RootsInRange()
    {
      forall k :: 0 <= k < |roots| && NoCommonRoot(fuel, k, target1, target2) ==>
        !PathIds(fuel, roots[k], target1).Deeper? && !PathIds(fuel, roots[k], target2).Deeper?
    }

    /** `r` is the outcome of counting the transfers between the paths from `roots[k]`. */
    ghost predicate TransfersAt(fuel: nat, k: nat, target1: string, target2: string, r: Result<Option<nat>, ()>)
      reads this
      requires Linked() && RootsInRange() && k < |roots|
    {
      var n := TransferCount(PathNames(fuel, roots[k], target1), PathNames(fuel, roots[k], target2));
      r == if n.Ok? then Ok(Some(n.value)) else Err(())
    }

    /** The first root from which both targets are found decides the outcome of
        `transfers`. */
    lemma CommonRootFound(fuel: nat, k: nat, target1: string, target2: string, r: Result<Option<nat>, ()>)
      requires Linked() && RootsInRange() && k < |roots|
      requires NoCommonRoot(fuel, k, target1, target2) && BothFound(fuel, k, target1, target2)
      requires TransfersAt(fuel, k, target1, target2, r)
      ensures r != Ok(None) && !NoCommonRoot(fuel, |roots|, target1, target2)
      ensures exists k: nat :: FirstCommonRoot(fuel, k, target1, target2) && TransfersAt(fuel, k, target1, target2, r)
    {
      assert FirstCommonRoot(fuel, k, target1, target2);
    }

    /** One turn of the loop in `transfers`: both paths from `roots[k]`, and the count
        when both are found. */
    method TransfersFrom(ghost fuel: nat, k: nat, target1: string, target2: string)
      returns (found: bool, r: Result<Option<nat>, ()>)
      requires Linked() && RootsInRange() && k < |roots|
      requires SearchesFinish(fuel, target1, target2) && NoCommonRoot(fuel, k, target1, target2)
      ensures found <==> BothFound(fuel, k, target1, target2)
      ensures found ==> TransfersAt(fuel, k, target1, target2, r)
      ensures !found ==> NoCommonRoot(fuel, k + 1, target1, target2)
    {
      var p1 := Path(fuel, roots[k], target1);
      var p2 := Path(fuel, roots[k], target2);
      found := p1 != [] && p2 != [];
      r := Ok(None);
      if found {
        var n := TransferCount(p1, p2);
        r := if n.Ok? then Ok(Some(n.value)) else Err(());
      }
    }

    /** `SolarSystem::transfers`: for the first root from which both targets are found, the
        bodies on exactly one of the two paths, less the two targets; `None` when no root
        leads to both, and `Err` where the subtraction underflows. */
    method Transfers(ghost fuel: nat, target1: string, target2: string) returns (r: Result<Option<nat>, ()>)
      requires Linked() && RootsInRange() && SearchesFinish(fuel, target1, target2)
      ensures r == Ok(None) <==> NoCommonRoot(fuel, |roots|, target1, target2)
      ensures r != Ok(None) ==> exists k: nat :: FirstCommonRoot(fuel, k, target1, target2) && TransfersAt(fuel, k, target1, target2, r)
    {
      for k := 0 to |roots|
        invariant NoCommonRoot(fuel, k, target1, target2)
      {
        var found, outcome := TransfersFrom(fuel, k, target1, target2);
        if found {
          CommonRootFound(fuel, k, target1, target2, outcome);
          return outcome;
        }
      }
      return Ok(None);
    }

    /** Where no root reaches a cycle, the searches of `transfers` finish within the largest
        root rank, and both targets are found from a root exactly when its subtree holds
        both. */
    lemma TransfersFinish(rank: map<nat, nat>, fuel: nat, target1: string, target2: string)
      requires Linked() && RootsInRange() && Ranked(rank) && RootsRanked(rank)
      requires forall k :: 0 <= k < |roots| ==> rank[roots[k]] <= fuel
      ensures SearchesFinish(fuel, target1, target2)
      ensures forall k :: 0 <= k < |roots| ==>
        (BothFound(fuel, k, target1, target2) <==> InSubtree(rank, roots[k], target1) && InSubtree(rank, roots[k], target2))
    {
      forall k | 0 <= k < |roots|
        ensures !PathIds(fuel, roots[k], target1).Deeper? && !PathIds(fuel, roots[k], target2).Deeper?
        ensures BothFound(fuel, k, target1, target2) <==> InSubtree(rank, roots[k], target1) && InSubtree(rank, roots[k], target2)
      {
        PathFound(rank, fuel, roots[k], target1);
        PathFound(rank, fuel, roots[k], target2);
      }
    }
    /** The first loop of `build_system`: `add` for each of the distinct sorted names. */
    method AddNames(sorted: seq<string>)
      requires Valid() && entries == [] && names == map[] && roots == []
      requires StrictTotal(StrLess) && StrictlySorted(sorted, StrLess)
      modifies this
      ensures Valid()
      ensures |entries| == |sorted| && forall i :: 0 <= i < |sorted| ==> entries[i] == SphereOfInfluence(i, sorted[i], [])
      ensures forall n :: n in names <==> n in sorted
      ensures Increasing(roots) && forall id: nat :: id in roots <==> id < |entries|
    {
      for k := 0 to |sorted|
        invariant Valid()
        invariant |entries| == k
        invariant forall i :: 0 <= i < k ==> entries[i] == SphereOfInfluence(i, sorted[i], [])
        invariant forall n :: n in names <==> n in sorted[..k]
        invariant |roots| == k && forall i :: 0 <= i < k ==> roots[i] == i
      {
        assert sorted[k] !in sorted[..k];
        assert sorted[..k + 1] == sorted[..k] + [sorted[k]];
        var _ := Add(sorted[k]);
      }
      assert sorted[..|sorted|] == sorted;
      forall id: nat | id < |entries|
        ensures id in roots
      {
        assert roots[id] == id;
      }
    }

    /** The second loop of `build_system`: `make_orbit` for each orbit in turn. */
    method LinkOrbits(orbits: seq<Orbit>)
      requires Valid() && forall o :: o in orbits ==> o.parent in names && o.child in names
      requires forall i :: 0 <= i < |entries| ==> entries[i].children == []
      requires Increasing(roots) && forall id: nat :: id in roots <==> id < |entries|
      modifies this
      ensures Valid() && names == old(names) && |entries| == |old(entries)|
      ensures forall i :: 0 <= i < |entries| ==>
        entries[i].name == old(entries)[i].name && entries[i].children == ChildIds(orbits, entries[i].name, names)
      ensures Increasing(roots)
      ensures forall id: nat :: id in roots <==> id < |entries| && !Orbits(orbits, entries[id].name)
    {
      ghost var names0 := entries;
      assert orbits[..0] == [];
      for j := 0 to |orbits|
        invariant Valid() && names == old(names)
        invariant ChildrenListed(entries, names0, orbits[..j], names)
        invariant RootsListed(entries, roots, orbits[..j])
      {
        LinkOrbit(orbits, j, names0);
      }
      assert orbits[..|orbits|] == orbits;
    }

    /** `ss[name].id`: the id of the body with that name, through the `Index<&str>` impl. */
    function Id(name: string): (id: nat)
      reads this
      requires Valid() && name in names
      ensures id == names[name] && id < |entries| && entries[id].name == name
    {
      entries[names[name]].id
    }

    /** One round of that loop: `make_orbit` for the `j`-th orbit, looked up by name. */
    method LinkOrbit(orbits: seq<Orbit>, j: nat, ghost names0: seq<SphereOfInfluence>)
      requires Valid() && j < |orbits| && forall o :: o in orbits ==> o.parent in names && o.child in names
      requires ChildrenListed(entries, names0, orbits[..j], names) && RootsListed(entries, roots, orbits[..j])
      modifies this
      ensures Valid() && names == old(names)
      ensures ChildrenListed(entries, names0, orbits[..j + 1], names) && RootsListed(entries, roots, orbits[..j + 1])
    {
      var orbit := orbits[j];
      assert orbit in orbits;
      var parent := Id(orbit.parent);
      var child := Id(orbit.child);
      ghost var entries0, roots0 := entries, roots;
      MakeOrbit(parent, child);
      LinkStep(orbits, j, names, names0, entries0, entries, roots0, roots, parent, child);
    }
  }

  /** The bodies in `entries`, named as in `names0`, have the children the orbits `prefix`
      list. */
  ghost predicate ChildrenListed(entries: seq<SphereOfInfluence>, names0: seq<SphereOfInfluence>,
    prefix: seq<Orbit>, ids: map<string, nat>)
  {
    && |entries| == |names0|
    && (forall o :: o in prefix ==> o.child in ids)
    && forall i :: 0 <= i < |entries| ==>
      entries[i].name == names0[i].name && entries[i].children == ChildIds(prefix, entries[i].name, ids)
  }

  /** The roots, in increasing order, are the bodies no orbit in `prefix` moves. */
  ghost predicate RootsListed(entries: seq<SphereOfInfluence>, roots: seq<nat>, prefix: seq<Orbit>)
  {
    Increasing(roots) && forall id: nat :: id in roots <==> id < |entries| && !Orbits(prefix, entries[id].name)
  }

  /** The names on exactly one of two paths. */
  function SymmetricDifference(p1: seq<string>, p2: seq<string>): set<string>
  {
    (set n | n in p1 && n !in p2) + (set n | n in p2 && n !in p1)
  }

  /** The ids of the bodies orbiting `parent`, in the order their orbits are listed. */
  function ChildIds(orbits: seq<Orbit>, parent: string, ids: map<string, nat>): (r: seq<nat>)
    requires forall o :: o in orbits ==> o.child in ids
  {
    if orbits == [] then []
    else
      var last := orbits[|orbits| - 1];
      ChildIds(orbits[..|orbits| - 1], parent, ids) + (if last.parent == parent then [ids[last.child]] else [])
  }

  /** Making orbit `j`, as `make_orbit` changes the bodies and the roots, keeps the children
      and the roots those the orbits up to and including the `j`-th give. */
  lemma LinkStep(orbits: seq<Orbit>, j: nat, ids: map<string, nat>, names0: seq<SphereOfInfluence>,
    entries0: seq<SphereOfInfluence>, entries: seq<SphereOfInfluence>, roots0: seq<nat>, roots: seq<nat>,
    parent: nat, child: nat)
    requires j < |orbits| && forall o :: o in orbits ==> o.parent in ids && o.child in ids
    requires forall i :: 0 <= i < |entries0| ==> entries0[i].name in ids && ids[entries0[i].name] == i
    requires parent < |entries0| && entries0[parent].name == orbits[j].parent && parent == ids[orbits[j].parent]
    requires child < |entries0| && entries0[child].name == orbits[j].child && child == ids[orbits[j].child]
    requires ChildrenListed(entries0, names0, orbits[..j], ids) && RootsListed(entries0, roots0, orbits[..j])
    requires entries == entries0[parent := entries0[parent].(children := entries0[parent].children + [child])]
    requires roots == Without(roots0, child)
    ensures ChildrenListed(entries, names0, orbits[..j + 1], ids)
    ensures RootsListed(entries, roots, orbits[..j + 1])
  {
    match Position(roots0, child) {
      case None =>
      case Some(i) => RemoveAt(roots0, i);
    }
    LinkChildren(orbits, j, ids, names0, entries0, entries, parent, child);
    LinkRoots(orbits, j, ids, entries0, entries, roots0, roots, child);
    assert forall o :: o in orbits[..j + 1] ==> o in orbits;
  }

  /** Making orbit `j` appends its child to the children of its parent, so each body's
      children are those the orbits up to and including the `j`-th list. */
  lemma LinkChildren(orbits: seq<Orbit>, j: nat, ids: map<string, nat>, names0: seq<SphereOfInfluence>,
    entries0: seq<SphereOfInfluence>, entries: seq<SphereOfInfluence>, parent: nat, child: nat)
    requires j < |orbits| && forall o :: o in orbits ==> o.parent in ids && o.child in ids
    requires parent < |entries0| && entries0[parent].name == orbits[j].parent && child == ids[orbits[j].child]
    requires forall i :: 0 <= i < |entries0| ==> entries0[i].name in ids && ids[entries0[i].name] == i
    requires |names0| == |entries0| && forall i :: 0 <= i < |entries0| ==>
      entries0[i].name == names0[i].name && entries0[i].children == ChildIds(orbits[..j], entries0[i].name, ids)
    requires entries == entries0[parent := entries0[parent].(children := entries0[parent].children + [child])]
    ensures forall i :: 0 <= i < |entries| ==>
      entries[i].name == names0[i].name && entries[i].children == ChildIds(orbits[..j + 1], entries[i].name, ids)
  {
    forall i | 0 <= i < |entries|
      ensures entries[i].children == ChildIds(orbits[..j + 1], entries[i].name, ids)
    {
      var name := entries[i].name;
      ChildIdsSnoc(orbits, j, name, ids);
      if i != parent {
        assert ids[name] == i;
      }
    }
  }

  /** Making orbit `j` takes its child, and only it, off the roots. */
  lemma LinkRoots(orbits: seq<Orbit>, j: nat, ids: map<string, nat>, entries0: seq<SphereOfInfluence>,
    entries: seq<SphereOfInfluence>, roots0: seq<nat>, roots: seq<nat>, child: nat)
    requires j < |orbits| && orbits[j].child in ids && child == ids[orbits[j].child]
    requires child < |entries0| && entries0[child].name == orbits[j].child
    requires forall i :: 0 <= i < |entries0| ==> entries0[i].name in ids && ids[entries0[i].name] == i
    requires |entries| == |entries0| && forall i :: 0 <= i < |entries| ==> entries[i].name == entries0[i].name
    requires forall id: nat :: id in roots0 <==> id < |entries0| && !Orbits(orbits[..j], entries0[id].name)
    requires forall id :: id in roots <==> id in roots0 && id != child
    ensures forall id: nat :: id in roots <==> id < |entries| && !Orbits(orbits[..j + 1], entries[id].name)
  {
    forall id: nat | id < |entries|
      ensures id in roots <==> !Orbits(orbits[..j + 1], entries[id].name)
    {
      var name := entries[id].name;
      OrbitsSnoc(orbits, j, name);
      assert name == orbits[j].child <==> id == child by {
        assert ids[name] == id;
      }
    }
  }

  /** The orbits up to and including the `j`-th list the children of `parent` the earlier
      ones list, then the `j`-th orbit's child when it orbits `parent`. */
  lemma ChildIdsSnoc(orbits: seq<Orbit>, j: nat, parent: string, ids: map<string, nat>)
    requires j < |orbits| && forall o :: o in orbits ==> o.child in ids
    ensures forall o :: o in orbits[..j] ==> o.child in ids
    ensures ChildIds(orbits[..j + 1], parent, ids) ==
      ChildIds(orbits[..j], parent, ids) + (if orbits[j].parent == parent then [ids[orbits[j].child]] else [])
  {
    assert forall o :: o in orbits[..j + 1] ==> o in orbits;
    assert orbits[..j + 1][..j] == orbits[..j];
  }

  /** The orbits up to and including the `j`-th mention a child exactly when the earlier
      ones do or the `j`-th orbit's child is that one. */
  lemma OrbitsSnoc(orbits: seq<Orbit>, j: nat, name: string)
    requires j < |orbits|
    ensures Orbits(orbits[..j + 1], name) <==> Orbits(orbits[..j], name) || name == orbits[j].child
  {
    assert orbits[..j + 1] == orbits[..j] + [orbits[j]];
    if Orbits(orbits[..j], name) {
      var o :| o in orbits[..j] && o.child == name;
      assert o in orbits[..j + 1];
    }
    if name == orbits[j].child {
      assert orbits[j] in orbits[..j + 1];
    }
  }

  /** Strictly increasing ids, as `roots` stays. */
  predicate Increasing(s: seq<nat>)
  {
    forall a, b :: 0 <= a < b < |s| ==> s[a] < s[b]
  }

  /** Removing the element at `i` from an increasing sequence removes exactly that value. */
  lemma RemoveAt(s: seq<nat>, i: nat)
    requires Increasing(s) && i < |s|
    ensures Increasing(s[..i] + s[i + 1..])
    ensures forall x :: x in s[..i] + s[i + 1..] <==> x in s && x != s[i]
  {
    var r := s[..i] + s[i + 1..];
    forall x | x in s && x != s[i]
      ensures x in r
    {
      var a :| 0 <= a < |s| && s[a] == x;
      if a < i {
        assert r[a] == x;
      } else {
        assert r[a - 1] == x;
      }
    }
  }

  /** The distinct names of an orbit map, in increasing order, as `build_system` sorts
      and deduplicates them. */
  function SortedNames(orbits: seq<Orbit>): (r: seq<string>)
    ensures StrictlySorted(r, StrLess)
    ensures forall n :: n in r <==> exists o :: o in orbits && (n == o.parent || n == o.child)
  {
    StrOrder();
    SortDedup(OrbitNames(orbits), StrLess)
  }

  /** Once every sorted name is registered, both ends of every orbit are. */
  lemma NamesListed(orbits: seq<Orbit>, names: map<string, nat>)
    requires forall n :: n in names <==> n in SortedNames(orbits)
    ensures forall o :: o in orbits ==> o.parent in names && o.child in names
  {
  }

  /** `build_system`: one body per distinct name, added in sorted order so that ids follow
      the names' order, then every orbit linked in turn. */
  method BuildSystem(orbits: seq<Orbit>) returns (ss: SolarSystem)
    ensures fresh(ss) && ss.Valid()
    ensures var sorted := SortedNames(orbits);
      |ss.entries| == |sorted| && forall i :: 0 <= i < |sorted| ==> ss.entries[i].name == sorted[i]
    ensures forall n :: n in ss.names <==> exists o :: o in orbits && (n == o.parent || n == o.child)
    ensures forall o :: o in orbits ==> o.child in ss.names
    ensures forall i :: 0 <= i < |ss.entries| ==>
      ss.entries[i].children == ChildIds(orbits, ss.entries[i].name, ss.names)
    ensures Increasing(ss.roots)
    ensures forall id: nat :: id in ss.roots <==> id < |ss.entries| && !Orbits(orbits, ss.entries[id].name)
  {
    ss := new SolarSystem();
    StrOrder();
    var sorted := SortedNames(orbits);
    ss.AddNames(sorted);
    NamesListed(orbits, ss.names);
    ss.LinkOrbits(orbits);
  }
}
