/** Filters that refer to one another by name (filterelement.c, global.c), as a graph:
    every registered name maps to its element tree, and an edge runs to each name the
    tree mentions. */
module FilterGraph {
  import opened FilterSyntax

  type Graph = map<string, Element>

  /** The filter names an element mentions. */
  function Refs(e: Element): set<string> {
    match e
    case FilterRef(name) => {name}
    case Group(inner) => Refs(inner)
    case Not(op) => Refs(op)
    case And(l, r) => Refs(l) + Refs(r)
    case Or(l, r) => Refs(l) + Refs(r)
    case _ => {}
  }

  predicate Edge(g: Graph, a: string, b: string) { a in g && b in Refs(g[a]) }

  /** A chain of references: each name's filter mentions the next name. */
  ghost predicate Path(g: Graph, p: seq<string>) {
    p != [] && forall i :: 0 <= i < |p| - 1 ==> Edge(g, p[i], p[i + 1])
  }

  ghost predicate Repeats(p: seq<string>) { exists i, j :: 0 <= i < j < |p| && p[i] == p[j] }

  /** No chain of references from this name comes back to a name already on it. */
  ghost predicate Safe(g: Graph, name: string) {
    forall p :: Path(g, p) && p[0] == name ==> !Repeats(p)
  }

  ghost predicate Acyclic(g: Graph) { forall p :: Path(g, p) ==> !Repeats(p) }

  lemma PathSuffix(g: Graph, p: seq<string>, i: nat)
    requires Path(g, p) && i < |p|
    ensures Path(g, p[i..])
  {
  }

  lemma PathPrefix(g: Graph, p: seq<string>, i: nat)
    requires Path(g, p) && 0 < i <= |p|
    ensures Path(g, p[..i])
  {
  }

  lemma PathExtend(g: Graph, p: seq<string>, b: string)
    requires Path(g, p) && Edge(g, p[|p| - 1], b)
    ensures Path(g, p + [b])
  {
  }

  /** Two paths that share an end can be joined. */
  lemma PathJoin(g: Graph, p: seq<string>, q: seq<string>)
    requires Path(g, p) && Path(g, q) && p[|p| - 1] == q[0]
    ensures Path(g, p + q[1..])
  {
  }

  // --------------------------------------------------------- changing the registry

  /** A closed chain read from another of its names. */
  lemma Rotate(g: Graph, loop: seq<string>, k: nat) returns (q: seq<string>)
    requires Path(g, loop) && k < |loop| - 1 && loop[0] == loop[|loop| - 1]
    ensures Path(g, q) && q[0] == loop[k] && Repeats(q)
  {
    var back, front := loop[k..], loop[..k + 1];
    PathSuffix(g, loop, k);
    PathPrefix(g, loop, k + 1);
    PathJoin(g, back, front);
    q := back + front[1..];
    assert q[0] == loop[k] && q[|loop| - 1] == loop[k];
  }

  /** A cycle of the changed graph passes through the changed name or was there before. */
  lemma CycleIsNewOrOld(g: Graph, name: string, e: Element, p: seq<string>)
    requires Path(g[name := e], p) && Repeats(p)
    ensures !Safe(g[name := e], name) || !Acyclic(g)
  {
    var g' := g[name := e];
    var i, j :| 0 <= i < j < |p| && p[i] == p[j];
    PathSuffix(g', p, i);
    PathPrefix(g', p[i..], j - i + 1);
    var loop := p[i..][..j - i + 1];
    assert loop[0] == loop[|loop| - 1];
    if k :| 0 <= k < |loop| - 1 && loop[k] == name {
      var q := Rotate(g', loop, k);
    } else {
      forall k | 0 <= k < |loop| - 1 ensures Edge(g, loop[k], loop[k + 1]) {
        assert Edge(g', loop[k], loop[k + 1]);
      }
      assert Path(g, loop) && Repeats(loop);
    }
  }

  /** (Re)defining a name from which no cycle can be reached creates no cycle. */
  lemma DefineKeepsAcyclic(g: Graph, name: string, e: Element)
    requires Acyclic(g) && Safe(g[name := e], name)
    ensures Acyclic(g[name := e])
  {
    forall p | Path(g[name := e], p) ensures !Repeats(p) {
      if Repeats(p) { CycleIsNewOrOld(g, name, e, p); }
    }
  }

  /** Removing a name leaves dangling references, never a new cycle. */
  lemma RemoveKeepsAcyclic(g: Graph, name: string)
    requires Acyclic(g)
    ensures Acyclic(g - {name})
  {
  }

  /** One change of the registry: a checked create-or-replace, or a removal. */
  datatype Change = Define(name: string, e: Element) | Remove(name: string)

  ghost function Apply(g: Graph, c: Change): Graph {
    match c
    case Define(name, e) => if Safe(g[name := e], name) then g[name := e] else g
    case Remove(name) => g - {name}
  }

  ghost function ApplyAll(g: Graph, cs: seq<Change>): Graph
    decreases |cs|
  {
    if cs == [] then g else ApplyAll(Apply(g, cs[0]), cs[1..])
  }

  lemma {:induction false} RunsKeepAcyclic(g: Graph, cs: seq<Change>)
    requires Acyclic(g)
    ensures Acyclic(ApplyAll(g, cs))
    decreases |cs|
  {
    if cs == [] {
    } else {
      match cs[0] {
        case Define(name, e) =>
          if Safe(g[name := e], name) { DefineKeepsAcyclic(g, name, e); }
        case Remove(name) => RemoveKeepsAcyclic(g, name);
      }
      RunsKeepAcyclic(Apply(g, cs[0]), cs[1..]);
    }
  }

  lemma EmptyIsAcyclic()
    ensures Acyclic(map[])
  {
    forall p | Path(map[], p) ensures !Repeats(p) {
      assert |p| > 1 ==> Edge(map[], p[0], p[0 + 1]);
    }
  }

  /** Starting empty, no sequence of checked definitions, replacements and removals ever
      leaves a reference cycle, whatever order names are defined and mentioned in. */
  lemma RegistryStaysAcyclic(cs: seq<Change>)
    ensures Acyclic(ApplyAll(map[], cs))
  {
    EmptyIsAcyclic();
    RunsKeepAcyclic(map[], cs);
  }

  // ---------------------------------------------------------------------- matching

  /** How the leaves of a filter judge the message at hand. */
  datatype World = World(regex: (string, string) -> bool, perl: string -> bool)

  /** Plain Boolean evaluation, with a truth value given for every filter name. */
  predicate Holds(e: Element, w: World, v: string -> bool) {
    match e
    case True => true
    case False => false
    case Regex(field, re) => w.regex(field, re)
    case FilterRef(name) => v(name)
    case Perl(name) => w.perl(name)
    case Group(inner) => Holds(inner, w, v)
    case Not(op) => !Holds(op, w, v)
    case And(l, r) => Holds(l, w, v) && Holds(r, w, v)
    case Or(l, r) => Holds(l, w, v) || Holds(r, w, v)
  }

  /** v gives every name the value of its own filter, and false to unknown names. */
  ghost predicate Meaning(g: Graph, w: World, v: string -> bool) {
    forall name :: v(name) == (name in g && Holds(g[name], w, v))
  }

  /** `chain` leads to the tree at hand: every name the tree mentions extends it. */
  ghost predicate Leads(g: Graph, chain: seq<string>, e: Element) {
    forall name :: name in Refs(e) ==> Path(g, chain + [name])
  }

  ghost function Pending(g: Graph, chain: seq<string>): set<string> {
    g.Keys - (set name | name in chain)
  }

  lemma PendingShrinks(g: Graph, chain: seq<string>, name: string)
    requires Acyclic(g) && Path(g, chain + [name]) && name in g
    ensures |Pending(g, chain + [name])| < |Pending(g, chain)|
    ensures Leads(g, chain + [name], g[name])
  {
    var p := chain + [name];
    assert name !in chain by {
      if name in chain {
        var i :| 0 <= i < |chain| && chain[i] == name;
        assert p[i] == p[|chain|] && Repeats(p);
      }
    }
    assert Pending(g, p) == Pending(g, chain) - {name};
    forall b | b in Refs(g[name]) ensures Path(g, p + [b]) {
      assert p[|p| - 1] == name;
      PathExtend(g, p, b);
    }
  }

  /** What `owl_filterelement_match` computes, following references through the
      registry. `chain` is the list of references being followed; because the registry
      is acyclic it never repeats, which is why matching ends. */
  ghost predicate Matches(g: Graph, chain: seq<string>, e: Element, w: World)
    requires Acyclic(g) && Leads(g, chain, e)
    decreases |Pending(g, chain)|, e
  {
    match e
    case True => true
    case False => false
    case Regex(field, re) => w.regex(field, re)
    case FilterRef(name) =>
      if name in g then
        PendingShrinks(g, chain, name);
        Matches(g, chain + [name], g[name], w)
      else false
    case Perl(name) => w.perl(name)
    case Group(inner) => Matches(g, chain, inner, w)
    case Not(op) => !Matches(g, chain, op, w)
    case And(l, r) => Matches(g, chain, l, w) && Matches(g, chain, r, w)
    case Or(l, r) => Matches(g, chain, l, w) || Matches(g, chain, r, w)
  }

  /** Against any assignment that gives each name its own filter's value, matching is
      plain Boolean evaluation. */
  lemma {:induction false} MatchesMeaning(g: Graph, chain: seq<string>, e: Element, w: World, v: string -> bool)
    requires Acyclic(g) && Leads(g, chain, e) && Meaning(g, w, v)
    ensures Matches(g, chain, e, w) == Holds(e, w, v)
    decreases |Pending(g, chain)|, e
  {
    hide Path;
    hide Repeats;
    match e
    case FilterRef(name) =>
      if name in g {
        PendingShrinks(g, chain, name);
        MatchesMeaning(g, chain + [name], g[name], w, v);
      }
    case Group(inner) => MatchesMeaning(g, chain, inner, w, v);
    case Not(op) => MatchesMeaning(g, chain, op, w, v);
    case And(l, r) =>
      MatchesMeaning(g, chain, l, w, v);
      MatchesMeaning(g, chain, r, w, v);
    case Or(l, r) =>
      MatchesMeaning(g, chain, l, w, v);
      MatchesMeaning(g, chain, r, w, v);
    case _ =>
  }

  lemma LeadsFromStart(g: Graph, e: Element)
    ensures Leads(g, [], e)
  {
  }

  /** The value of every name, computed by matching a reference to it. */
  ghost function Computed(g: Graph, w: World): string -> bool
    requires Acyclic(g)
  {
    name => (LeadsFromStart(g, FilterRef(name)); Matches(g, [], FilterRef(name), w))
  }

  /** How a match depends on the chain: not at all. */
  lemma {:induction false} MatchesAnyChain(g: Graph, c: seq<string>, d: seq<string>, e: Element, w: World)
    requires Acyclic(g) && Leads(g, c, e) && Leads(g, d, e)
    ensures Matches(g, c, e, w) == Matches(g, d, e, w)
    decreases |Pending(g, c)|, e
  {
    hide Path;
    hide Repeats;
    hide Pending;
    hide Acyclic;
    match e
    case FilterRef(name) =>
      if name in g {
        PendingShrinks(g, c, name);
        PendingShrinks(g, d, name);
        MatchesAnyChain(g, c + [name], d + [name], g[name], w);
      }
    case Group(inner) => MatchesAnyChain(g, c, d, inner, w);
    case Not(op) => MatchesAnyChain(g, c, d, op, w);
    case And(l, r) =>
      MatchesAnyChain(g, c, d, l, w);
      MatchesAnyChain(g, c, d, r, w);
    case Or(l, r) =>
      MatchesAnyChain(g, c, d, l, w);
      MatchesAnyChain(g, c, d, r, w);
    case _ =>
  }

  lemma {:induction false} HoldsComputed(g: Graph, chain: seq<string>, e: Element, w: World)
    requires Acyclic(g) && Leads(g, chain, e)
    ensures Matches(g, chain, e, w) == Holds(e, w, Computed(g, w))
    decreases e
  {
    hide Path;
    hide Repeats;
    match e
    case FilterRef(name) =>
      LeadsFromStart(g, e);
      MatchesAnyChain(g, chain, [], e, w);
    case Group(inner) => HoldsComputed(g, chain, inner, w);
    case Not(op) => HoldsComputed(g, chain, op, w);
    case And(l, r) =>
      HoldsComputed(g, chain, l, w);
      HoldsComputed(g, chain, r, w);
    case Or(l, r) =>
      HoldsComputed(g, chain, l, w);
      HoldsComputed(g, chain, r, w);
    case _ =>
  }

  /** On an acyclic registry the filters, read as equations between names, have exactly
      one solution, and matching computes it. */
  lemma MeaningIsUnique(g: Graph, w: World)
    requires Acyclic(g)
    ensures Meaning(g, w, Computed(g, w))
    ensures forall v :: Meaning(g, w, v) ==> forall name :: v(name) == Computed(g, w)(name)
  {
    var c := Computed(g, w);
    forall name ensures c(name) == (name in g && Holds(g[name], w, c)) {
      LeadsFromStart(g, FilterRef(name));
      if name in g {
        PendingShrinks(g, [], name);
        HoldsComputed(g, [] + [name], g[name], w);
      }
    }
    forall v, name | Meaning(g, w, v) ensures v(name) == c(name) {
      LeadsFromStart(g, FilterRef(name));
      MatchesMeaning(g, [], FilterRef(name), w, v);
    }
  }

  /** Why the registry must stay acyclic: a filter that is its own negation has no
      value at all. */
  lemma CyclicHasNoMeaning(w: World, v: string -> bool)
    ensures !Meaning(map["a" := Not(FilterRef("a"))], w, v)
    ensures !Acyclic(map["a" := Not(FilterRef("a"))])
  {
    var g: Graph := map["a" := Not(FilterRef("a"))];
    assert "a" in g && Holds(g["a"], w, v) == !v("a");
    var p := ["a", "a"];
    assert p[0] == p[1] && Edge(g, p[0], p[1]);
    assert Path(g, p) && Repeats(p);
  }
}
