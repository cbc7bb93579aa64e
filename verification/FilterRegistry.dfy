/** The filter registry (global.c), the loop check that guards it (filterelement.c), and
    the commands that change it (functions.c). */
module FilterRegistry {
  import opened Strings
  import opened Lists
  import opened Colors
  import opened Dictionary
  import opened FilterSyntax
  import opened FilterGraph

  /** `owl_filter`: the name and the tree are fixed, the colours can be set. */
  class FilterObject {
    const name: string
    const root: Element
    var fgcolor: CInt
    var bgcolor: CInt

    constructor (f: Filter)
      ensures name == f.name && root == f.root && fgcolor == f.fgcolor && bgcolor == f.bgcolor
    {
      name, root, fgcolor, bgcolor := f.name, f.root, f.fgcolor, f.bgcolor;
    }
  }

  /** The two marks of the loop check. */
  datatype Mark = Visiting | Visited

  // ----------------------------------------------------- the loop check, specified

  /** The state of the search: the names being visited are exactly the chain of
      references from the start, and everything reachable from a visited name is
      visited and free of cycles. */
  ghost predicate SearchInv(g: Graph, seen: map<string, Mark>, chain: seq<string>) {
    Path(g, chain) &&
    (forall n :: n in chain <==> n in seen && seen[n] == Visiting) &&
    (forall n :: n in seen && seen[n] == Visited ==> Done(g, seen, n))
  }

  ghost predicate Done(g: Graph, seen: map<string, Mark>, n: string) {
    Safe(g, n) && (n in g ==> forall m :: m in Refs(g[n]) ==> m in seen && seen[m] == Visited)
  }

  /** Everything the search has finished stays finished. */
  ghost predicate Grows(before: map<string, Mark>, after: map<string, Mark>) {
    (forall n :: n in before ==> n in after && (before[n] == Visited ==> after[n] == Visited)) &&
    (forall n :: n in after && after[n] == Visiting ==> n in before && before[n] == Visiting)
  }

  ghost predicate AllVisited(e: Element, seen: map<string, Mark>) {
    forall m :: m in Refs(e) ==> m in seen && seen[m] == Visited
  }

  /** Every name on a chain that starts at a visited name is visited. */
  lemma {:induction false} VisitedIsClosed(g: Graph, seen: map<string, Mark>, p: seq<string>, i: nat)
    requires Path(g, p) && i < |p|
    requires p[0] in seen && seen[p[0]] == Visited
    requires forall n :: n in seen && seen[n] == Visited ==> Done(g, seen, n)
    ensures p[i] in seen && seen[p[i]] == Visited
  {
    if i == 0 {
    } else {
      VisitedIsClosed(g, seen, p, i - 1);
      assert Edge(g, p[i - 1], p[i - 1 + 1]);
      assert Done(g, seen, p[i - 1]);
    }
  }

  /** When all names its tree mentions are finished, the name itself is safe. */
  lemma FinishIsSafe(g: Graph, seen: map<string, Mark>, n: string)
    requires forall m :: m in seen && seen[m] == Visited ==> Done(g, seen, m)
    requires n in seen && seen[n] == Visiting
    requires n in g ==> AllVisited(g[n], seen)
    ensures Safe(g, n)
  {
    forall p | Path(g, p) && p[0] == n ensures !Repeats(p) {
      if |p| > 1 {
        assert Edge(g, p[0], p[0 + 1]);
        PathSuffix(g, p, 1);
        var q := p[1..];
        forall i | 1 <= i < |p| ensures p[i] != n {
          VisitedIsClosed(g, seen, q, i - 1);
          assert q[i - 1] == p[i];
        }
        assert Safe(g, q[0]);
        NoRepeatFromTail(p);
      }
    }
  }

  lemma NoRepeatFromTail(p: seq<string>)
    requires p != [] && !Repeats(p[1..]) && forall i :: 1 <= i < |p| ==> p[i] != p[0]
    ensures !Repeats(p)
  {
  }

  /** Entering an unmarked name extends the chain. */
  lemma EnterKeepsInv(g: Graph, seen: map<string, Mark>, chain: seq<string>, n: string)
    requires SearchInv(g, seen, chain) && n !in seen && Path(g, chain + [n])
    ensures SearchInv(g, seen[n := Visiting], chain + [n])
  {
  }

  /** Leaving a name whose references are finished shortens the chain again. */
  lemma LeaveKeepsInv(g: Graph, seen: map<string, Mark>, chain: seq<string>, n: string)
    requires SearchInv(g, seen, chain + [n]) && chain != [] && n !in chain
    requires n in g ==> AllVisited(g[n], seen)
    ensures SearchInv(g, seen[n := Visited], chain)
  {
    var seen' := seen[n := Visited];
    PathPrefix(g, chain + [n], |chain|);
    assert (chain + [n])[..|chain|] == chain;
    FinishIsSafe(g, seen, n);
    forall m | m in seen' && seen'[m] == Visited ensures Done(g, seen', m) {
      assert m != n ==> Done(g, seen, m);
    }
  }

  /** A reference to a name on the chain closes a cycle reachable from its start. */
  lemma BackReference(g: Graph, chain: seq<string>, n: string)
    requires chain != [] && Path(g, chain + [n]) && n in chain
    ensures !Safe(g, chain[0])
  {
    var p := chain + [n];
    var i :| 0 <= i < |chain| && chain[i] == n;
    assert p[i] == p[|chain|] && Repeats(p) && p[0] == chain[0];
  }

  /** The names a search can meet. */
  ghost predicate Universe(g: Graph, all: set<string>) {
    forall n :: n in g ==> Refs(g[n]) <= all
  }

  ghost function AllNames(g: Graph): (all: set<string>)
    ensures Universe(g, all)
  {
    set n, m | n in g && m in Refs(g[n]) :: m
  }

  // ---------------------------------------------------------------- the registry

  class Registry {
    var filters: Dict<FilterObject>
    var filterlist: seq<FilterObject>

    /** The dictionary and the list hold the same filters, each once and under its own name. */
    ghost predicate Consistent()
      reads this, filters, filters.els
    {
      filters.Valid() &&
      (forall n :: n in filters.contents ==> filters.contents[n].name == n) &&
      SameFilters(filters.contents, filterlist)
    }

    /** Besides, following references never comes back to where it started. */
    ghost predicate Valid()
      reads this, filters, filters.els
    {
      Consistent() && Acyclic(GraphOf(filters.contents))
    }

    ghost function Graph(): Graph
      requires Consistent()
      reads this, filters, filters.els
    {
      GraphOf(filters.contents)
    }

    constructor ()
      ensures Valid() && fresh(filters) && fresh(filters.els)
      ensures filters.contents == map[] && filterlist == [] && Graph() == map[]
    {
      filters := new Dict();
      filterlist := [];
      new;
      EmptyIsAcyclic();
      assert GraphOf(map[]) == map[];
    }

    /** `owl_global_get_filter`. */
    method GetFilter(name: string) returns (f: Option<FilterObject>)
      requires filters.Valid()
      ensures f == if name in filters.contents then Some(filters.contents[name]) else None
    {
      f := filters.Find(name);
    }

    /** `_owl_filterelement_is_toodeep`. `g` is the reference graph with the filter under
        check in place; `chain` the references followed to reach e. */
    method IsTooDeepFrom(e: Element, seen: Dict<Mark>, ghost g: Graph, ghost chain: seq<string>,
                         ghost all: set<string>)
      returns (rv: bool)
      requires filters.Valid() && seen.Valid() && seen as object != filters && seen.els as object != filters.els
      requires chain != [] && WithChecked(g, filters.contents, chain[0])
      requires Universe(g, all) && Refs(e) <= all
      requires SearchInv(g, seen.contents, chain) && Leads(g, chain, e)
      modifies seen, seen.els
      ensures seen.Valid() && (seen.els == old(seen.els) || fresh(seen.els))
      ensures rv ==> !Safe(g, chain[0])
      ensures !rv ==> SearchInv(g, seen.contents, chain) && AllVisited(e, seen.contents)
      ensures Grows(old(seen.contents), seen.contents)
      decreases |all - seen.contents.Keys|, e, 1
    {
      hide Safe;
      hide SearchInv;
      hide Universe;
      hide WithChecked;
      rv := false;
      match e
      case FilterRef(name) => rv := FollowReference(e, name, seen, g, chain, all);
      case Group(inner) => rv := IsTooDeepFrom(inner, seen, g, chain, all);
      case Not(op) => rv := IsTooDeepFrom(op, seen, g, chain, all);
      case And(l, r) => rv := AreTooDeep(e, l, r, seen, g, chain, all);
      case Or(l, r) => rv := AreTooDeep(e, l, r, seen, g, chain, all);
      case _ =>
    }

    method FollowReference(e: Element, name: string, seen: Dict<Mark>, ghost g: Graph, ghost chain: seq<string>,
                           ghost all: set<string>)
      returns (rv: bool)
      requires e == FilterRef(name)
      requires filters.Valid() && seen.Valid() && seen as object != filters && seen.els as object != filters.els
      requires chain != [] && WithChecked(g, filters.contents, chain[0])
      requires Universe(g, all) && Refs(e) <= all
      requires SearchInv(g, seen.contents, chain) && Leads(g, chain, e)
      modifies seen, seen.els
      ensures seen.Valid() && (seen.els == old(seen.els) || fresh(seen.els))
      ensures rv ==> !Safe(g, chain[0])
      ensures !rv ==> SearchInv(g, seen.contents, chain) && AllVisited(e, seen.contents)
      ensures Grows(old(seen.contents), seen.contents)
      decreases |all - seen.contents.Keys|, e, 0
    {
      hide *;
      rv := false;
      var nval := seen.Find(name);
      ghost var seen0 := seen.contents;
      ReferenceFacts(g, seen0, chain, name, filters.contents, all);
      if nval == Some(Visiting) {
        BackReference(g, chain, name);
        rv := true;
      } else if nval == None {
        var f := GetFilter(name);
        EnterKeepsInv(g, seen0, chain, name);
        var _, _ := seen.Insert(name, Visiting, true);
        ghost var seen1 := seen.contents;
        assert seen1 == seen0[name := Visiting] by { InsertedReplaces(seen0, name, Visiting); }
        if f != None {
          LeadsOn(g, chain, name);
          rv := IsTooDeepFrom(f.value.root, seen, g, chain + [name], all);
        }
        ghost var seen2 := seen.contents;
        if !rv {
          LeaveKeepsInv(g, seen2, chain, name);
        }
        LeaveGrows(seen0, seen1, seen2, name);
        var _, _ := seen.Insert(name, Visited, true);
        assert seen.contents == seen2[name := Visited] by { InsertedReplaces(seen2, name, Visited); }
      }
      VisitedReference(e, name, seen.contents);
    }

    /** Both operands in turn, the second only when the first found no loop. */
    method AreTooDeep(e: Element, l: Element, r: Element, seen: Dict<Mark>, ghost g: Graph, ghost chain: seq<string>,
                      ghost all: set<string>)
      returns (rv: bool)
      requires e == And(l, r) || e == Or(l, r)
      requires filters.Valid() && seen.Valid() && seen as object != filters && seen.els as object != filters.els
      requires chain != [] && WithChecked(g, filters.contents, chain[0])
      requires Universe(g, all) && Refs(e) <= all
      requires SearchInv(g, seen.contents, chain) && Leads(g, chain, e)
      modifies seen, seen.els
      ensures seen.Valid() && (seen.els == old(seen.els) || fresh(seen.els))
      ensures rv ==> !Safe(g, chain[0])
      ensures !rv ==> SearchInv(g, seen.contents, chain) && AllVisited(e, seen.contents)
      ensures Grows(old(seen.contents), seen.contents)
      decreases |all - seen.contents.Keys|, e, 0
    {
      hide *;
      OperandFacts(g, chain, e, l, r);
      ghost var seen0 := seen.contents;
      rv := IsTooDeepFrom(l, seen, g, chain, all);
      ghost var seen1 := seen.contents;
      KeysGrow(all, seen0, seen1);
      if !rv {
        rv := IsTooDeepFrom(r, seen, g, chain, all);
        GrowsTwice(seen0, seen1, seen.contents, l);
        OperandsVisited(e, l, r, seen.contents);
      }
    }

    /** `owl_filter_is_toodeep`: on any registry, even a cyclic one, the check ends, and
        it reports a loop exactly when following references from the new filter can come
        back to a name already on the chain. */
    method IsTooDeep(name: string, root: Element) returns (rv: bool)
      requires filters.Valid()
      ensures rv <==> !Safe(GraphOf(filters.contents)[name := root], name)
    {
      ghost var g := GraphOf(filters.contents)[name := root];
      ghost var all := AllNames(g);
      var seen := new Dict<Mark>();
      var _, _ := seen.Insert(name, Visiting, true);
      assert seen.contents == map[name := Visiting];
      StartFacts(g, name, seen.contents, all);
      hide SearchInv;
      hide Safe;
      hide Universe;
      rv := IsTooDeepFrom(root, seen, g, [name], all);
      if !rv {
        FinishStart(g, name, seen.contents);
      }
    }

    /** `owl_filter_new`. */
    method NewFilter(name: string, argv: seq<string>, lang: Lang) returns (f: FilterObject?)
      requires filters.Valid()
      ensures f == null <==>
        var b := Build(name, argv, lang);
        b == None || !Safe(GraphOf(filters.contents)[name := b.value.root], name)
      ensures f != null ==> fresh(f) && Describes(f, Build(name, argv, lang).value)
    {
      var b := BuildFilter(name, argv, lang);
      assert b != None ==> b.value.name == name;
      if b == None { return null; }
      var loop := IsTooDeep(name, b.value.root);
      if loop { return null; }
      f := new FilterObject(b.value);
    }

    /** `owl_global_add_filter`: a filter of the same name is replaced, and its entry in
        the list goes with it. The addition itself checks nothing; the registry stays free
        of cycles exactly when the loop check would have passed. */
    method AddFilter(f: FilterObject)
      requires Valid() && f !in filterlist
      modifies this, filters, filters.els
      ensures Valid() <==> Safe(old(Graph())[f.name := f.root], f.name)
      ensures Consistent() && filters == old(filters) && (filters.els == old(filters.els) || fresh(filters.els))
      ensures filters.contents == old(filters.contents)[f.name := f]
      ensures filterlist ==
        (if f.name in old(filters.contents) then Without(old(filterlist), old(filters.contents)[f.name])
         else old(filterlist)) + [f]
      ensures Graph() == old(Graph())[f.name := f.root]
    {
      hide Acyclic;
      hide Safe;
      hide SameFilters;
      AddedFacts(filters.contents, filterlist, f);
      var _, replaced := filters.Insert(f.name, f, true);
      if replaced != None {
        filterlist := RemoveFirst(filterlist, replaced.value);
      }
      filterlist := filterlist + [f];
    }

    /** `owl_global_remove_filter`. */
    method RemoveFilter(name: string)
      requires Valid()
      modifies this, filters, filters.els
      ensures Valid() && filters == old(filters) && (filters.els == old(filters.els) || fresh(filters.els))
      ensures filters.contents == old(filters.contents) - {name}
      ensures filterlist ==
        if name in old(filters.contents) then Without(old(filterlist), old(filters.contents)[name])
        else old(filterlist)
      ensures Graph() == Apply(old(Graph()), Remove(name))
    {
      hide Acyclic;
      hide SameFilters;
      RemovedFacts(filters.contents, filterlist, name);
      var e := filters.Remove(name);
      if e != None {
        filterlist := RemoveFirst(filterlist, e.value);
      }
    }

    /** `owl_filterelement_match`. */
    method Match(e: Element, w: World, ghost chain: seq<string>) returns (b: bool)
      requires Valid() && Leads(Graph(), chain, e)
      ensures b == Matches(Graph(), chain, e, w)
      decreases |Pending(Graph(), chain)|, e
    {
      hide Acyclic;
      hide SameFilters;
      hide Pending;
      match e
      case True => b := true;
      case False => b := false;
      case Regex(field, re) => b := w.regex(field, re);
      case FilterRef(name) =>
        var subfilter := GetFilter(name);
        if subfilter == None { return false; }
        PendingShrinks(Graph(), chain, name);
        b := Match(subfilter.value.root, w, chain + [name]);
      case Perl(name) => b := w.perl(name);
      case Group(inner) => b := Match(inner, w, chain);
      case Not(op) =>
        b := Match(op, w, chain);
        b := !b;
      case And(l, r) =>
        b := Match(l, w, chain);
        if b { b := Match(r, w, chain); }
      case Or(l, r) =>
        b := Match(l, w, chain);
        if !b { b := Match(r, w, chain); }
    }

    /** `owl_filter_message_match`, for a registered filter or any other. */
    method MessageMatch(f: FilterObject, w: World) returns (b: bool)
      requires Valid()
      ensures forall v :: Meaning(Graph(), w, v) ==> b == Holds(f.root, w, v)
    {
      LeadsFromStart(Graph(), f.root);
      b := Match(f.root, w, []);
      forall v | Meaning(Graph(), w, v) ensures b == Holds(f.root, w, v) {
        MatchesMeaning(Graph(), [], f.root, w, v);
      }
    }

    /** No filter has come, gone or been replaced. */
    twostate predicate SameRegistry()
      reads this, filters
    {
      filters == old(filters) && filters.contents == old(filters.contents) && filterlist == old(filterlist)
    }

    /** These filters keep their colours, all but those of these names. */
    static twostate predicate SameColorsBut(names: set<string>, list: seq<FilterObject>)
      reads list
    {
      forall f | f in list && f.name !in names :: f.fgcolor == old(f.fgcolor) && f.bgcolor == old(f.bgcolor)
    }

    /** `owl_function_create_filter`: the command that creates, replaces or recolours a
        filter. Recolouring the foreground reports failure even when it succeeds. */
    method CreateFilter(argv: seq<string>, lang: Lang) returns (ok: bool)
      requires Valid()
      modifies this, filters, filters.els, filterlist
      ensures Valid() && filters == old(filters) && (filters.els == old(filters.els) || fresh(filters.els))
      ensures |argv| < 2 || argv[1] == "all" ==>
        !ok && SameRegistry() && SameColorsBut({}, old(filterlist))
      ensures |argv| == 4 && argv[1] != "all" && (argv[2] == "-c" || argv[2] == "-b") ==>
        var name, c := argv[1], StringToColor(argv[3], lang.colors);
        SameRegistry() &&
        (name !in filters.contents || c == COLOR_INVALID ==> !ok && SameColorsBut({}, old(filterlist))) &&
        (name in filters.contents && c != COLOR_INVALID ==>
          SameColorsBut({name}, old(filterlist)) && (ok <==> argv[2] == "-b") &&
          var f := filters.contents[name];
          (argv[2] == "-c" ==> f.fgcolor == c && f.bgcolor == old(f.bgcolor)) &&
          (argv[2] == "-b" ==> f.fgcolor == old(f.fgcolor) && f.bgcolor == c))
      ensures |argv| >= 2 && argv[1] != "all" && !Recolors(argv) ==>
        SameColorsBut({}, old(filterlist)) && (!ok ==> SameRegistry()) &&
        match Build(argv[1], argv[2..], lang)
        case None => !ok
        case Some(f) =>
          (ok <==> Safe(old(Graph())[argv[1] := f.root], argv[1])) &&
          Graph() == Apply(old(Graph()), Define(argv[1], f.root)) &&
          (ok ==> argv[1] in filters.contents && Describes(filters.contents[argv[1]], f) &&
                  filters.contents - {argv[1]} == old(filters.contents) - {argv[1]})
    {
      hide Acyclic;
      hide Safe;
      hide SameFilters;
      hide Build;
      if |argv| < 2 || argv[1] == "all" { return false; }
      if |argv| == 4 && (argv[2] == "-c" || argv[2] == "-b") {
        ok := Recolor(argv[1], argv[2] == "-c", argv[3], lang);
        return;
      }
      var f := NewFilter(argv[1], argv[2..], lang);
      if f == null { return false; }
      Register(f);
      return true;
    }

    /** The colour-setting branches of the command. */
    method Recolor(name: string, fore: bool, text: string, lang: Lang) returns (ok: bool)
      requires Valid()
      modifies filterlist
      ensures Valid()
      ensures var c := StringToColor(text, lang.colors);
        name in filters.contents && c != COLOR_INVALID ==>
          filters.contents[name].fgcolor == (if fore then c else old(filters.contents[name].fgcolor)) &&
          filters.contents[name].bgcolor == (if fore then old(filters.contents[name].bgcolor) else c)
      ensures SameColorsBut({name}, filterlist)
      ensures name !in filters.contents || StringToColor(text, lang.colors) == COLOR_INVALID ==>
        SameColorsBut({}, filterlist)
      ensures ok <==> !fore && name in filters.contents && StringToColor(text, lang.colors) != COLOR_INVALID
    {
      var f := GetFilter(name);
      if f == None { return false; }
      var c := LookupColor(text, lang.colors);
      if c == COLOR_INVALID { return false; }
      hide Acyclic;
      if fore {
        f.value.fgcolor := c;
        return false;
      }
      f.value.bgcolor := c;
      return true;
    }

    /** The last steps of the command: an old filter of the name goes, the new one comes. */
    method Register(f: FilterObject)
      requires Valid() && f !in filterlist && Safe(Graph()[f.name := f.root], f.name)
      modifies this, filters, filters.els
      ensures Valid() && filters == old(filters) && (filters.els == old(filters.els) || fresh(filters.els))
      ensures filters.contents == old(filters.contents)[f.name := f]
      ensures Graph() == Apply(old(Graph()), Define(f.name, f.root))
    {
      hide Acyclic;
      hide Safe;
      hide SameFilters;
      hide Without;
      ReplacedFacts(filters.contents, filterlist, f);
      var present := GetFilter(f.name);
      if present != None {
        RemoveFilter(f.name);
      }
      AddFilter(f);
    }
  }

  /** The command names a filter and one colour for it, and nothing else. */
  predicate Recolors(argv: seq<string>) {
    |argv| == 4 && argv[1] != "all" && (argv[2] == "-c" || argv[2] == "-b")
  }

  ghost predicate Describes(o: FilterObject, f: Filter)
    reads o
  {
    o.name == f.name && o.root == f.root && o.fgcolor == f.fgcolor && o.bgcolor == f.bgcolor
  }

  lemma RemovedSame(contents: map<string, FilterObject>, list: seq<FilterObject>, name: string)
    requires SameFilters(contents, list)
    requires forall n :: n in contents ==> contents[n].name == n
    ensures SameFilters(contents - {name}, if name in contents then Without(list, contents[name]) else list)
  {
    if name in contents {
      var r := Without(list, contents[name]);
      WithoutFacts(list, contents[name]);
      forall f | f in r ensures f.name in contents - {name} && contents[f.name] == f {
        assert f in list;
      }
      forall n | n in contents - {name} ensures contents[n] in r {
        assert contents[n] in list && contents[n].name == n;
      }
    }
  }

  lemma AddedSame(contents: map<string, FilterObject>, list: seq<FilterObject>, f: FilterObject)
    requires SameFilters(contents, list) && f !in list
    requires forall n :: n in contents ==> contents[n].name == n
    ensures SameFilters(contents[f.name := f],
                        (if f.name in contents then Without(list, contents[f.name]) else list) + [f])
  {
    RemovedSame(contents, list, f.name);
    var kept := if f.name in contents then Without(list, contents[f.name]) else list;
    if f.name in contents { WithoutFacts(list, contents[f.name]); }
    AppendedSame(contents - {f.name}, kept, f);
    assert (contents - {f.name})[f.name := f] == contents[f.name := f];
  }

  lemma AppendedSame(contents: map<string, FilterObject>, list: seq<FilterObject>, f: FilterObject)
    requires SameFilters(contents, list) && f !in list && f.name !in contents
    ensures SameFilters(contents[f.name := f], list + [f])
  {
  }

  /** All an addition keeps. */
  lemma AddedFacts(contents: map<string, FilterObject>, list: seq<FilterObject>, f: FilterObject)
    requires SameFilters(contents, list) && f !in list && Acyclic(GraphOf(contents))
    requires forall n :: n in contents ==> contents[n].name == n
    ensures var after := contents[f.name := f];
            SameFilters(after, (if f.name in contents then Without(list, contents[f.name]) else list) + [f]) &&
            (Acyclic(GraphOf(after)) <==> Safe(GraphOf(contents)[f.name := f.root], f.name)) &&
            GraphOf(after) == GraphOf(contents)[f.name := f.root] &&
            forall n :: n in after ==> after[n].name == n
  {
    AddedSame(contents, list, f);
    var g := GraphOf(contents)[f.name := f.root];
    if Safe(g, f.name) { DefineKeepsAcyclic(GraphOf(contents), f.name, f.root); }
    assert Acyclic(g) ==> Safe(g, f.name);
    assert GraphOf(contents[f.name := f]) == g;
  }

  /** All a removal keeps. */
  lemma RemovedFacts(contents: map<string, FilterObject>, list: seq<FilterObject>, name: string)
    requires SameFilters(contents, list) && Acyclic(GraphOf(contents))
    requires forall n :: n in contents ==> contents[n].name == n
    ensures var after := contents - {name};
            SameFilters(after, if name in contents then Without(list, contents[name]) else list) &&
            Acyclic(GraphOf(after)) && GraphOf(after) == Apply(GraphOf(contents), Remove(name))
  {
    RemovedSame(contents, list, name);
    RemoveKeepsAcyclic(GraphOf(contents), name);
    assert GraphOf(contents - {name}) == GraphOf(contents) - {name};
  }

  /** Removing a name and then defining it is defining it. */
  lemma ReplacedFacts(contents: map<string, FilterObject>, list: seq<FilterObject>, f: FilterObject)
    requires SameFilters(contents, list) && f !in list
    ensures f.name in contents ==> f !in Without(list, contents[f.name])
    ensures (contents - {f.name})[f.name := f] == contents[f.name := f]
    ensures (GraphOf(contents) - {f.name})[f.name := f.root] == GraphOf(contents)[f.name := f.root]
  {
    if f.name in contents { WithoutFacts(list, contents[f.name]); }
  }

  lemma StartFacts(g: Graph, name: string, seen: map<string, Mark>, all: set<string>)
    requires name in g && seen == map[name := Visiting] && Universe(g, all)
    ensures SearchInv(g, seen, [name]) && Leads(g, [name], g[name]) && Refs(g[name]) <= all
  {
  }

  lemma FinishStart(g: Graph, name: string, seen: map<string, Mark>)
    requires SearchInv(g, seen, [name]) && name in g && AllVisited(g[name], seen)
    ensures Safe(g, name)
  {
    assert name in [name];
    FinishIsSafe(g, seen, name);
  }

  lemma OperandFacts(g: Graph, chain: seq<string>, e: Element, l: Element, r: Element)
    requires (e == And(l, r) || e == Or(l, r)) && Leads(g, chain, e)
    ensures Leads(g, chain, l) && Leads(g, chain, r) && Refs(e) == Refs(l) + Refs(r)
  {
  }

  lemma OperandsVisited(e: Element, l: Element, r: Element, seen: map<string, Mark>)
    requires e == And(l, r) || e == Or(l, r)
    ensures AllVisited(l, seen) && AllVisited(r, seen) ==> AllVisited(e, seen)
  {
  }

  lemma GrowsTwice(seen0: map<string, Mark>, seen1: map<string, Mark>, seen2: map<string, Mark>, e: Element)
    requires Grows(seen0, seen1) && Grows(seen1, seen2)
    ensures Grows(seen0, seen2)
    ensures AllVisited(e, seen1) ==> AllVisited(e, seen2)
  {
  }

  /** What the search knows on meeting a reference. */
  lemma ReferenceFacts(g: Graph, seen: map<string, Mark>, chain: seq<string>, name: string,
                       contents: map<string, FilterObject>, all: set<string>)
    requires chain != [] && WithChecked(g, contents, chain[0]) && Universe(g, all) && Refs(FilterRef(name)) <= all
    requires SearchInv(g, seen, chain) && Leads(g, chain, FilterRef(name))
    ensures Path(g, chain + [name])
    ensures name in seen && seen[name] == Visiting ==> name in chain
    ensures name !in seen ==> name !in chain
    ensures name !in seen ==> (name in g <==> name in contents) && (name in g ==> g[name] == contents[name].root)
    ensures name in g ==> Refs(g[name]) <= all
    ensures WithChecked(g, contents, (chain + [name])[0])
    ensures name !in seen ==> |all - seen[name := Visiting].Keys| < |all - seen.Keys|
    ensures Grows(seen, seen)
  {
    hide Path;
    assert name in Refs(FilterRef(name));
    if name !in seen {
      assert chain[0] in chain;
      assert all - seen[name := Visiting].Keys == (all - seen.Keys) - {name};
    }
  }

  lemma InsertedReplaces<V>(m: map<string, V>, k: string, v: V)
    ensures Inserted(m, k, v, true) == m[k := v]
  {
  }

  lemma LeaveGrows(seen0: map<string, Mark>, seen1: map<string, Mark>, seen2: map<string, Mark>, name: string)
    requires name !in seen0 && seen1 == seen0[name := Visiting]
    requires seen2 == seen1 || Grows(seen1, seen2)
    ensures Grows(seen0, seen2[name := Visited])
  {
  }

  lemma VisitedReference(e: Element, name: string, seen: map<string, Mark>)
    requires e == FilterRef(name)
    ensures name in seen && seen[name] == Visited ==> AllVisited(e, seen)
  {
  }

  lemma KeysGrow(all: set<string>, before: map<string, Mark>, after: map<string, Mark>)
    requires Grows(before, after)
    ensures |all - after.Keys| <= |all - before.Keys|
  {
    SubsetSize(all - after.Keys, all - before.Keys);
  }

  lemma {:induction false} SubsetSize<T>(a: set<T>, b: set<T>)
    requires a <= b
    ensures |a| <= |b|
  {
    if a == {} {
    } else {
      var x :| x in a;
      SubsetSize(a - {x}, b - {x});
    }
  }

  /** The registry's graph, with a tree in place for the filter being checked. */
  ghost predicate WithChecked(g: Graph, contents: map<string, FilterObject>, start: string) {
    start in g &&
    forall n :: n != start ==> (n in g <==> n in contents) && (n in g ==> g[n] == contents[n].root)
  }

  lemma LeadsOn(g: Graph, chain: seq<string>, name: string)
    requires Path(g, chain + [name]) && name in g
    ensures Leads(g, chain + [name], g[name])
  {
  }

  ghost function GraphOf(contents: map<string, FilterObject>): Graph {
    map n | n in contents :: contents[n].root
  }

  /** The list holds exactly the values of the dictionary, each once. */
  ghost predicate SameFilters(contents: map<string, FilterObject>, list: seq<FilterObject>) {
    (forall n :: n in contents ==> contents[n] in list) &&
    (forall f :: f in list ==> f.name in contents && contents[f.name] == f) &&
    (forall i, j :: 0 <= i < j < |list| ==> list[i] != list[j])
  }
}
