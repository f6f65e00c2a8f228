/** `scripts/lockfile_gate.py`, `cmd_closure`: every installed distribution is required,
    directly or through others, by one of the roots.

    Markers are evaluated by `packaging`; here `holds(marker, extra)` is any predicate. */
module Closure {
  import opened Text
  import opened Names

  datatype Requirement = Requirement(name: string, extras: seq<string>, marker: Option<string>)

  datatype Distribution = Distribution(name: string, requirements: seq<Requirement>)

  /** A distribution asked for with one of its extras, or with none (`""`). */
  datatype Node = Node(name: string, extra: string)

  type Markers = (string, string) -> bool

  datatype Error =
    | InstalledTwice(name: string)
    | NotInstalled(name: string)
    | RequiredByNothing(name: string)

  predicate Active(req: Requirement, extra: string, holds: Markers) {
    req.marker.None? || holds(req.marker.value, extra)
  }

  function Extras(dep: string, extras: seq<string>): seq<Node> {
    if extras == [] then []
    else Extras(dep, extras[..|extras| - 1]) + [Node(dep, Canonical(extras[|extras| - 1]))]
  }

  /** What an active requirement puts on the list. */
  function Targets(req: Requirement): seq<Node> {
    [Node(Canonical(req.name), "")] + Extras(Canonical(req.name), req.extras)
  }

  function Roots(names: seq<string>): seq<Node> {
    if names == [] then []
    else Roots(names[..|names| - 1]) + [Node(Canonical(names[|names| - 1]), "")]
  }

  /** The installed distributions by canonical name; the last of a name counts. */
  function Installed(dists: seq<Distribution>): map<string, Distribution> {
    if dists == [] then map[]
    else
      var n := |dists| - 1;
      Installed(dists[..n])[Canonical(dists[n].name) := dists[n]]
  }

  function InstalledNames(dists: seq<Distribution>): seq<string> {
    if dists == [] then []
    else InstalledNames(dists[..|dists| - 1]) + [Canonical(dists[|dists| - 1].name)]
  }

  // ------------------------------------------------------------------ specification

  /** A requirement asks for its project as it is and with each of its extras. */
  ghost predicate AsksFor(req: Requirement, b: Node) {
    && b.name == Canonical(req.name)
    && (b.extra == "" || exists extra :: extra in req.extras && b.extra == Canonical(extra))
  }

  /** It does so without a marker, or when the marker holds for the extra that is asked for. */
  ghost predicate Applies(req: Requirement, extra: string, holds: Markers) {
    req.marker.Some? ==> holds(req.marker.value, extra)
  }

  /** `b` is asked for because `a` is. */
  ghost predicate Edge(a: Node, b: Node, dists: map<string, Distribution>, holds: Markers) {
    a.name in dists
    && exists req :: req in dists[a.name].requirements && Applies(req, a.extra, holds) && AsksFor(req, b)
  }

  ghost predicate Closed(s: set<Node>, roots: seq<Node>, dists: map<string, Distribution>, holds: Markers) {
    && (forall r | r in roots :: r in s)
    && (forall a, b | a in s && Edge(a, b, dists, holds) :: b in s)
  }

  /** The least set that holds the roots and is closed under active requirements. */
  ghost predicate Least(s: set<Node>, roots: seq<Node>, dists: map<string, Distribution>, holds: Markers) {
    && Closed(s, roots, dists, holds)
    && forall t: set<Node> | Closed(t, roots, dists, holds) :: s <= t
  }

  /** A chain of active requirements that starts at a root. */
  ghost predicate Chain(path: seq<Node>, roots: seq<Node>, dists: map<string, Distribution>, holds: Markers) {
    && path != [] && path[0] in roots
    && forall i | 0 <= i < |path| - 1 :: Edge(path[i], path[i + 1], dists, holds)
  }

  ghost predicate Reached(n: Node, roots: seq<Node>, dists: map<string, Distribution>, holds: Markers) {
    exists path: seq<Node> :: Chain(path, roots, dists, holds) && path[|path| - 1] == n
  }

  lemma {:induction false} ChainInClosed(path: seq<Node>, s: set<Node>, roots: seq<Node>,
                                         dists: map<string, Distribution>, holds: Markers)
    requires Chain(path, roots, dists, holds) && Closed(s, roots, dists, holds)
    ensures path[|path| - 1] in s
  {
    if |path| > 1 {
      var n := |path| - 1;
      assert forall i | 0 <= i < n - 1 :: Edge(path[..n][i], path[..n][i + 1], dists, holds);
      ChainInClosed(path[..n], s, roots, dists, holds);
      assert Edge(path[n - 1], path[n], dists, holds);
    }
  }

  lemma ChainExtends(a: Node, b: Node, roots: seq<Node>, dists: map<string, Distribution>, holds: Markers)
    requires Reached(a, roots, dists, holds) && Edge(a, b, dists, holds)
    ensures Reached(b, roots, dists, holds)
  {
    var path: seq<Node> :| Chain(path, roots, dists, holds) && path[|path| - 1] == a;
    var longer := path + [b];
    assert Chain(longer, roots, dists, holds);
    assert longer[|longer| - 1] == b;
  }

  /** The least closed set is what chains of requirements reach: each node of it is asked for
      for a reason that starts at a root, and nothing so reached is missing. */
  lemma LeastIsReached(s: set<Node>, roots: seq<Node>, dists: map<string, Distribution>, holds: Markers)
    requires Least(s, roots, dists, holds)
    ensures forall n :: n in s <==> Reached(n, roots, dists, holds)
  {
    var t := set n | n in s && Reached(n, roots, dists, holds);
    forall r | r in roots ensures r in t {
      assert Chain([r], roots, dists, holds) && [r][|[r]| - 1] == r;
    }
    forall a, b | a in t && Edge(a, b, dists, holds) ensures b in t {
      ChainExtends(a, b, roots, dists, holds);
    }
    assert Closed(t, roots, dists, holds);
    forall n | Reached(n, roots, dists, holds) ensures n in s {
      var path: seq<Node> :| Chain(path, roots, dists, holds) && path[|path| - 1] == n;
      ChainInClosed(path, s, roots, dists, holds);
    }
  }

  lemma LeastUnique(s: set<Node>, t: set<Node>, roots: seq<Node>, dists: map<string, Distribution>,
                    holds: Markers)
    requires Least(s, roots, dists, holds) && Least(t, roots, dists, holds)
    ensures s == t
  {
  }

  // ------------------------------------------------------------------ a finite universe

  function AllTargets(reqs: seq<Requirement>): set<Node> {
    if reqs == [] then {}
    else
      var n := |reqs| - 1;
      AllTargets(reqs[..n]) + set t | t in Targets(reqs[n])
  }

  /** Everything that any distribution could ask for. */
  function Universe(dists: seq<Distribution>): set<Node> {
    if dists == [] then {}
    else Universe(dists[..|dists| - 1]) + AllTargets(dists[|dists| - 1].requirements)
  }

  lemma {:induction false} TargetsListed(reqs: seq<Requirement>, req: Requirement)
    requires req in reqs
    ensures forall t | t in Targets(req) :: t in AllTargets(reqs)
  {
    var n := |reqs| - 1;
    if req != reqs[n] {
      TargetsListed(reqs[..n], req);
    }
  }

  lemma {:induction false} InstalledInUniverse(dists: seq<Distribution>, name: string, req: Requirement)
    requires name in Installed(dists) && req in Installed(dists)[name].requirements
    ensures forall t | t in Targets(req) :: t in Universe(dists)
  {
    var n := |dists| - 1;
    if name == Canonical(dists[n].name) {
      TargetsListed(dists[n].requirements, req);
    } else {
      InstalledInUniverse(dists[..n], name, req);
    }
  }

  lemma {:induction false} ExtrasExact(dep: string, extras: seq<string>, b: Node)
    ensures b in Extras(dep, extras) <==> b.name == dep && exists e :: e in extras && b.extra == Canonical(e)
  {
    if extras != [] {
      var n := |extras| - 1;
      ExtrasExact(dep, extras[..n], b);
      assert forall e :: e in extras <==> e in extras[..n] || e == extras[n];
    }
  }

  /** What is put on the list for a requirement is what it asks for. */
  lemma TargetsExact(req: Requirement, b: Node)
    ensures b in Targets(req) <==> AsksFor(req, b)
  {
    ExtrasExact(Canonical(req.name), req.extras, b);
  }

  lemma {:induction false} RootsExact(names: seq<string>)
    ensures var roots := Roots(names);
            |roots| == |names| && forall i | 0 <= i < |names| :: roots[i] == Node(Canonical(names[i]), "")
  {
    if names != [] {
      RootsExact(names[..|names| - 1]);
    }
  }

  lemma {:induction false} InstalledNamesExact(dists: seq<Distribution>)
    ensures var names := InstalledNames(dists);
            |names| == |dists| && forall i | 0 <= i < |dists| :: names[i] == Canonical(dists[i].name)
  {
    if dists != [] {
      InstalledNamesExact(dists[..|dists| - 1]);
    }
  }

  /** The last distribution of a canonical name is the one that counts. */
  lemma {:induction false} InstalledExact(dists: seq<Distribution>, name: string)
    ensures name in Installed(dists) <==> exists i :: 0 <= i < |dists| && Canonical(dists[i].name) == name
    ensures name in Installed(dists) ==>
              exists i :: 0 <= i < |dists| && Canonical(dists[i].name) == name && Installed(dists)[name] == dists[i]
                          && forall j | i < j < |dists| :: Canonical(dists[j].name) != name
  {
    if dists != [] {
      var n := |dists| - 1;
      InstalledExact(dists[..n], name);
      if Canonical(dists[n].name) == name {
        assert Installed(dists)[name] == dists[n];
      } else if name in Installed(dists[..n]) {
        var i :| 0 <= i < n && Canonical(dists[..n][i].name) == name && Installed(dists[..n])[name] == dists[..n][i]
                 && forall j | i < j < n :: Canonical(dists[..n][j].name) != name;
        assert Canonical(dists[i].name) == name && Installed(dists)[name] == dists[i];
        forall j | i < j < |dists| ensures Canonical(dists[j].name) != name {
          if j < n {
            assert dists[..n][j] == dists[j];
          }
        }
      }
      if i :| 0 <= i < |dists| && Canonical(dists[i].name) == name {
        assert i < n ==> dists[..n][i] == dists[i];
      }
    }
  }

  // ------------------------------------------------------------------ the command

  method ListInstalled(distributions: seq<Distribution>)
    returns (dists: map<string, Distribution>, errors: seq<Error>)
    ensures dists == Installed(distributions)
    ensures dists.Keys == set n | n in InstalledNames(distributions)
    ensures errors == [] <==> Distinct(InstalledNames(distributions))
  {
    dists, errors := map[], [];
    for i := 0 to |distributions|
      invariant dists == Installed(distributions[..i])
      invariant dists.Keys == set n | n in InstalledNames(distributions[..i])
      invariant errors == [] <==> Distinct(InstalledNames(distributions[..i]))
    {
      var name := Canonical(distributions[i].name);
      assert distributions[..i + 1][..i] == distributions[..i];
      DistinctSnoc(InstalledNames(distributions[..i]), name);
      if name in dists {
        errors := errors + [InstalledTwice(name)];
      }
      dists := dists[name := distributions[i]];
    }
    assert distributions[..|distributions|] == distributions;
  }

  /** What one node puts on the list: the targets of its active requirements, in order. */
  method Ask(reqs: seq<Requirement>, extra: string, holds: Markers) returns (more: seq<Node>)
    ensures forall t :: t in more <==> exists req :: req in reqs && Applies(req, extra, holds) && AsksFor(req, t)
    ensures forall t | t in more :: exists req :: req in reqs && t in Targets(req)
  {
    more := [];
    for i := 0 to |reqs|
      invariant forall t ::
                  t in more
                  <==> exists k | 0 <= k < i :: Active(reqs[k], extra, holds) && t in Targets(reqs[k])
    {
      if Active(reqs[i], extra, holds) {
        more := more + Targets(reqs[i]);
      }
    }
    forall t ensures t in more <==> exists req :: req in reqs && Applies(req, extra, holds) && AsksFor(req, t) {
      forall k | 0 <= k < |reqs| ensures t in Targets(reqs[k]) <==> AsksFor(reqs[k], t) {
        TargetsExact(reqs[k], t);
      }
      if req :| req in reqs && Applies(req, extra, holds) && AsksFor(req, t) {
        var k :| 0 <= k < |reqs| && reqs[k] == req;
        assert Active(reqs[k], extra, holds);
      }
    }
  }

  /** What is seen or still on the list covers the roots and what the seen nodes ask for. */
  ghost predicate Covered(seen: set<Node>, todo: seq<Node>, roots: seq<Node>,
                          dists: map<string, Distribution>, holds: Markers) {
    && (forall r | r in roots :: r in seen || r in todo)
    && (forall a, b | a in seen && Edge(a, b, dists, holds) :: b in seen || b in todo)
  }

  /** Nothing is seen or on the list without need. */
  ghost predicate Needed(seen: set<Node>, todo: seq<Node>, roots: seq<Node>,
                         dists: map<string, Distribution>, holds: Markers) {
    forall t: set<Node> | Closed(t, roots, dists, holds) ::
      seen <= t && forall n | n in todo :: n in t
  }

  lemma StepKeeps(seen: set<Node>, todo: seq<Node>, node: Node, more: seq<Node>, roots: seq<Node>,
                  dists: map<string, Distribution>, holds: Markers)
    requires Covered(seen, todo + [node], roots, dists, holds) && Needed(seen, todo + [node], roots, dists, holds)
    requires forall t :: t in more <==> Edge(node, t, dists, holds)
    ensures Covered(seen + {node}, todo + more, roots, dists, holds)
    ensures Needed(seen + {node}, todo + more, roots, dists, holds)
  {
    forall t: set<Node> | Closed(t, roots, dists, holds)
      ensures seen + {node} <= t && forall n | n in todo + more :: n in t
    {
      assert node in todo + [node];
      forall n | n in todo ensures n in t {
        assert n in todo + [node];
      }
    }
    forall r | r in roots ensures r in seen + {node} || r in todo + more {
      assert r in seen || r in todo + [node];
    }
    forall a, b | a in seen + {node} && Edge(a, b, dists, holds)
      ensures b in seen + {node} || b in todo + more
    {
      if a != node {
        assert b in seen || b in todo + [node];
      }
    }
  }

  lemma PopKeeps(seen: set<Node>, todo: seq<Node>, node: Node, roots: seq<Node>,
                 dists: map<string, Distribution>, holds: Markers)
    requires node in seen
    requires Covered(seen, todo + [node], roots, dists, holds) && Needed(seen, todo + [node], roots, dists, holds)
    ensures Covered(seen, todo, roots, dists, holds) && Needed(seen, todo, roots, dists, holds)
  {
    forall n | n in todo ensures n in todo + [node] {
    }
    forall n | n in todo + [node] && n != node ensures n in todo {
    }
  }

  /** The worklist terminates, ends with the least closed set, and the venv passes exactly when
      no name is installed twice and the installed names are the reached ones. */
  method CmdClosure(distributions: seq<Distribution>, roots: seq<string>, holds: Markers)
    returns (rc: nat, seen: set<Node>, errors: seq<Error>)
    ensures Least(seen, Roots(roots), Installed(distributions), holds)
    ensures forall s :: Least(s, Roots(roots), Installed(distributions), holds) ==> s == seen
    ensures rc == 0 || rc == 1
    ensures rc == 0 <==> errors == []
    ensures rc == 0
            <==> && Distinct(InstalledNames(distributions))
                 && (set n | n in seen :: n.name) == (set n | n in InstalledNames(distributions))
  {
    var dists;
    dists, errors := ListInstalled(distributions);
    ghost var distinct := errors == [];
    var start := Roots(roots);
    ghost var all := Universe(distributions) + set r | r in start;
    seen := {};
    var todo := start;
    while todo != []
      invariant seen <= all && forall n | n in todo :: n in all
      invariant Covered(seen, todo, start, dists, holds) && Needed(seen, todo, start, dists, holds)
      invariant errors == [] <==> distinct && forall n | n in seen :: n.name in dists
      decreases all - seen, |todo|
    {
      var node := todo[|todo| - 1];
      ghost var before := todo;
      todo := todo[..|todo| - 1];
      assert before == todo + [node];
      if node in seen {
        PopKeeps(seen, todo, node, start, dists, holds);
        continue;
      }
      ghost var unseen := all - seen;
      if node.name !in dists {
        errors := errors + [NotInstalled(node.name)];
        StepKeeps(seen, todo, node, [], start, dists, holds);
        assert todo + [] == todo;
        seen := seen + {node};
      } else {
        var reqs := dists[node.name].requirements;
        var more := Ask(reqs, node.extra, holds);
        StepKeeps(seen, todo, node, more, start, dists, holds);
        forall t | t in more ensures t in all {
          var req :| req in reqs && t in Targets(req);
          InstalledInUniverse(distributions, node.name, req);
        }
        todo := todo + more;
        seen := seen + {node};
      }
      assert node in unseen && node !in all - seen;
    }
    var unreached := dists.Keys - set n | n in seen :: n.name;
    ghost var reachedInstalled := errors == [];
    ghost var missing := unreached;
    while unreached != {}
      invariant unreached <= missing
      invariant errors == [] <==> reachedInstalled && unreached == missing
    {
      var name :| name in unreached;
      errors := errors + [RequiredByNothing(name)];
      unreached := unreached - {name};
    }
    rc := if errors == [] then 0 else 1;
    NamesAgree(seen, dists.Keys);
    forall s | Least(s, start, dists, holds) ensures s == seen {
      LeastUnique(s, seen, start, dists, holds);
    }
  }

  lemma NamesAgree(seen: set<Node>, installed: set<string>)
    ensures (set n | n in seen :: n.name) == installed
            <==> (forall n | n in seen :: n.name in installed)
                 && installed - (set n | n in seen :: n.name) == {}
  {
    var reached := set n | n in seen :: n.name;
    if (forall n | n in seen :: n.name in installed) && installed - reached == {} {
      forall name | name in installed ensures name in reached {
        assert name !in installed - reached;
      }
    }
    if reached == installed {
      forall n | n in seen ensures n.name in installed {
        assert n.name in reached;
      }
    }
  }
}
