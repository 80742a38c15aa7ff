/** Following re-exports to the framework's translation function, with one shared set of seen tokens. */
module TranslationExports {
  import opened Wrappers

  /** `original as name`, in an import or export list. */
  datatype Element = Element(original: string, name: string, typeOnly: bool)

  /** The statements that matter; `typeOnly` is the statement's own `type` keyword. */
  datatype Statement =
    | ExportLocal(typeOnly: bool, elements: seq<Element>)
    | ExportAll(typeOnly: bool, specifier: string)
    | ExportFrom(typeOnly: bool, specifier: string, elements: seq<Element>)
    | Import(typeOnly: bool, specifier: string, bindings: seq<Element>)
    | OtherStatement

  /** Parsed files, how a specifier in a file resolves, and the framework's module names. */
  datatype Program = Program(asts: map<string, seq<Statement>>,
                             resolve: (string, string) -> Option<string>, modules: set<string>)

  /** A name exported by a file; no file when a specifier resolves to none. */
  datatype Place = Place(file: Option<string>, name: string)

  function FileText(file: Option<string>): string {
    if file.Some? then file.value else "undefined"
  }

  function Token(at: Place): string {
    FileText(at.file) + ":" + at.name
  }

  // ---------- Where an exported name comes from ----------

  /** One source of an exported name. */
  datatype Link = Link(specifier: string, original: string)

  function BindingLinks(specifier: string, bindings: seq<Element>, local: string): seq<Link> {
    if bindings == [] then []
    else
      (if !bindings[0].typeOnly && bindings[0].name == local then [Link(specifier, bindings[0].original)] else []) +
      BindingLinks(specifier, bindings[1..], local)
  }

  function ImportLinks(declarations: seq<Statement>, local: string): seq<Link> {
    if declarations == [] then []
    else
      var d := declarations[0];
      (if d.Import? && !d.typeOnly then BindingLinks(d.specifier, d.bindings, local) else [])
        + ImportLinks(declarations[1..], local)
  }

  function ElementLinks(tree: seq<Statement>, elements: seq<Element>, name: string): seq<Link> {
    if elements == [] then []
    else
      var e := elements[0];
      (if !e.typeOnly && e.name == name then ImportLinks(tree, e.original) else [])
        + ElementLinks(tree, elements[1..], name)
  }

  function StatementLinks(tree: seq<Statement>, s: Statement, name: string): seq<Link> {
    match s
    case ExportLocal(typeOnly, elements) => if typeOnly then [] else ElementLinks(tree, elements, name)
    case ExportAll(typeOnly, specifier) => if typeOnly then [] else [Link(specifier, name)]
    case ExportFrom(typeOnly, specifier, elements) => if typeOnly then [] else BindingLinks(specifier, elements, name)
    case Import(_, _, _) => []
    case OtherStatement => []
  }

  function TreeLinks(tree: seq<Statement>, statements: seq<Statement>, name: string): seq<Link> {
    if statements == [] then []
    else StatementLinks(tree, statements[0], name) + TreeLinks(tree, statements[1..], name)
  }

  function Links(p: Program, at: Place): seq<Link> {
    if at.file.Some? && at.file.value in p.asts then TreeLinks(p.asts[at.file.value], p.asts[at.file.value], at.name)
    else []
  }

  predicate Goal(p: Program, link: Link) {
    link.specifier in p.modules && link.original == "__"
  }

  /** A specifier resolves to one of the program's files or to none. */
  function Target(p: Program, file: string, specifier: string): Option<string> {
    var target := p.resolve(file, specifier);
    if target.Some? && target.value in p.asts then target else None
  }

  function Next(p: Program, at: Place, link: Link): Place {
    Place(if at.file.Some? then Target(p, at.file.value, link.specifier) else None, link.original)
  }

  /** A re-export path of at most n further steps reaches `__` in a framework module. */
  ghost predicate ReachesIn(p: Program, at: Place, n: nat)
    decreases n
  {
    exists i :: 0 <= i < |Links(p, at)| &&
      (Goal(p, Links(p, at)[i]) || (n > 0 && ReachesIn(p, Next(p, at, Links(p, at)[i]), n - 1)))
  }

  ghost predicate Reaches(p: Program, at: Place) {
    exists n: nat :: ReachesIn(p, at, n)
  }

  // ---------- The search ----------

  datatype Search = Search(found: bool, seen: set<string>)

  /** All tokens of the program's files with these names. */
  function Tokens(p: Program, names: set<string>): set<string> {
    set f <- p.asts.Keys, n <- names :: Token(Place(Some(f), n))
  }

  /** The names cover every name a link of the program can lead to from one of them. */
  ghost predicate Covers(p: Program, names: set<string>) {
    forall at: Place, i :: at.name in names && 0 <= i < |Links(p, at)| ==> Links(p, at)[i].original in names
  }

  predicate Within(links: seq<Link>, names: set<string>) {
    forall i :: 0 <= i < |links| ==> links[i].original in names
  }

  function Visit(p: Program, names: set<string>, at: Place, seen: set<string>): (r: Search)
    requires Covers(p, names) && at.name in names
    ensures seen <= r.seen
    decreases |Tokens(p, names) - seen|, 0
  {
    if Token(at) in seen then Search(false, seen)
    else if Links(p, at) == [] then Search(false, seen + {Token(at)})
    else
      Shrinks(p, names, at, seen);
      VisitLinks(p, names, at, Links(p, at), seen + {Token(at)})
  }

  function VisitLinks(p: Program, names: set<string>, at: Place, links: seq<Link>, seen: set<string>): (r: Search)
    requires Covers(p, names) && Within(links, names)
    ensures seen <= r.seen
    decreases |Tokens(p, names) - seen|, |links| + 1
  {
    if links == [] then Search(false, seen)
    else if Goal(p, links[0]) then Search(true, seen)
    else
      var r := Visit(p, names, Next(p, at, links[0]), seen);
      if r.found then r
      else
        Fewer(Tokens(p, names) - r.seen, Tokens(p, names) - seen);
        VisitLinks(p, names, at, links[1..], r.seen)
  }

  lemma Fewer(a: set<string>, b: set<string>)
    requires a <= b
    ensures |a| <= |b|
    ensures a != b ==> |a| < |b|
  {
    assert b == a + (b - a);
  }

  lemma Shrinks(p: Program, names: set<string>, at: Place, seen: set<string>)
    requires at.name in names && Token(at) !in seen && Links(p, at) != []
    ensures |Tokens(p, names) - (seen + {Token(at)})| < |Tokens(p, names) - seen|
  {
    assert Token(at) in Tokens(p, names) - seen by { assert at == Place(Some(at.file.value), at.name); }
    Fewer(Tokens(p, names) - (seen + {Token(at)}), Tokens(p, names) - seen);
  }

  // ---------- Names ----------

  function ElementsOf(s: Statement): seq<Element> {
    match s
    case ExportLocal(_, elements) => elements
    case ExportFrom(_, _, elements) => elements
    case Import(_, _, bindings) => bindings
    case _ => []
  }

  /** Every name a link can lead to, besides the one asked for. */
  function Originals(p: Program): set<string> {
    set f <- p.asts.Keys, s <- p.asts[f], e <- ElementsOf(s) :: e.original
  }

  predicate Holds(tree: seq<Statement>, names: set<string>) {
    forall i :: 0 <= i < |tree| ==> HoldsElements(ElementsOf(tree[i]), names)
  }

  predicate HoldsElements(elements: seq<Element>, names: set<string>) {
    forall i :: 0 <= i < |elements| ==> elements[i].original in names
  }

  lemma {:induction false} BindingsWithin(specifier: string, bindings: seq<Element>, local: string, names: set<string>)
    requires HoldsElements(bindings, names)
    ensures Within(BindingLinks(specifier, bindings, local), names)
  {
    if bindings != [] { BindingsWithin(specifier, bindings[1..], local, names); }
  }

  lemma {:induction false} ImportsWithin(declarations: seq<Statement>, local: string, names: set<string>)
    requires Holds(declarations, names)
    ensures Within(ImportLinks(declarations, local), names)
  {
    if declarations != [] {
      var d := declarations[0];
      ImportsWithin(declarations[1..], local, names);
      if d.Import? { BindingsWithin(d.specifier, d.bindings, local, names); }
    }
  }

  lemma {:induction false} ElementsWithin(tree: seq<Statement>, elements: seq<Element>, name: string,
                                          names: set<string>)
    requires Holds(tree, names)
    ensures Within(ElementLinks(tree, elements, name), names)
  {
    if elements != [] {
      ElementsWithin(tree, elements[1..], name, names);
      ImportsWithin(tree, elements[0].original, names);
    }
  }

  lemma StatementWithin(tree: seq<Statement>, s: Statement, name: string, names: set<string>)
    requires Holds(tree, names) && HoldsElements(ElementsOf(s), names) && name in names
    ensures Within(StatementLinks(tree, s, name), names)
  {
    match s
    case ExportLocal(_, elements) => ElementsWithin(tree, elements, name, names);
    case ExportFrom(_, specifier, elements) => BindingsWithin(specifier, elements, name, names);
    case _ =>
  }

  lemma {:induction false} TreeWithin(tree: seq<Statement>, statements: seq<Statement>, name: string,
                                      names: set<string>)
    requires Holds(tree, names) && Holds(statements, names) && name in names
    ensures Within(TreeLinks(tree, statements, name), names)
  {
    if statements != [] {
      TreeWithin(tree, statements[1..], name, names);
      StatementWithin(tree, statements[0], name, names);
    }
  }

  lemma OriginalsCover(p: Program, name: string)
    ensures Covers(p, Originals(p) + {name})
  {
    var names := Originals(p) + {name};
    forall at: Place, i | at.name in names && 0 <= i < |Links(p, at)| ensures Links(p, at)[i].original in names {
      var tree := p.asts[at.file.value];
      forall j, k | 0 <= j < |tree| && 0 <= k < |ElementsOf(tree[j])| ensures ElementsOf(tree[j])[k].original in names {
        var e := ElementsOf(tree[j])[k];
        assert tree[j] in p.asts[at.file.value] && e in ElementsOf(tree[j]);
      }
      TreeWithin(tree, tree, at.name, names);
    }
  }

  // ---------- The search finds exactly what is reachable ----------

  lemma {:induction false} FoundReaches(p: Program, names: set<string>, at: Place, seen: set<string>)
    requires Covers(p, names) && at.name in names && Visit(p, names, at, seen).found
    ensures Reaches(p, at)
    decreases |Tokens(p, names) - seen|, 0
  {
    Shrinks(p, names, at, seen);
    FoundLinkReaches(p, names, at, 0, seen + {Token(at)});
  }

  lemma {:induction false} FoundLinkReaches(p: Program, names: set<string>, at: Place, k: nat, seen: set<string>)
    requires Covers(p, names) && at.name in names && k <= |Links(p, at)|
    requires VisitLinks(p, names, at, Links(p, at)[k..], seen).found
    ensures Reaches(p, at)
    decreases |Tokens(p, names) - seen|, |Links(p, at)| - k + 1
  {
    var link := Links(p, at)[k];
    assert Links(p, at)[k..][0] == link && Links(p, at)[k..][1..] == Links(p, at)[k + 1..];
    if Goal(p, link) {
      assert ReachesIn(p, at, 0);
    } else {
      var next := Next(p, at, link);
      var r := Visit(p, names, next, seen);
      if r.found {
        FoundReaches(p, names, next, seen);
        var n: nat :| ReachesIn(p, next, n);
        assert ReachesIn(p, at, n + 1);
      } else {
        Fewer(Tokens(p, names) - r.seen, Tokens(p, names) - seen);
        FoundLinkReaches(p, names, at, k + 1, r.seen);
      }
    }
  }

  /** Nothing to find at a place, and everything it leads to has been seen. */
  ghost predicate Explored(p: Program, at: Place, seen: set<string>) {
    ExploredLinks(p, at, Links(p, at), seen)
  }

  ghost predicate ExploredLinks(p: Program, at: Place, links: seq<Link>, seen: set<string>) {
    forall i :: 0 <= i < |links| ==> !Goal(p, links[i]) && Token(Next(p, at, links[i])) in seen
  }

  /** Every place of these names whose token was added is explored. */
  ghost predicate AddedExplored(p: Program, names: set<string>, before: set<string>, after: set<string>) {
    forall at: Place :: at.name in names && Token(at) in after && Token(at) !in before ==> Explored(p, at, after)
  }

  /** A place in one of these files, or in none, with one of these names. */
  predicate Among(at: Place, files: set<string>, names: set<string>) {
    at.name in names && (at.file.Some? ==> at.file.value in files)
  }

  /** Among places of these files and names, no other place has the token of one in a file. */
  ghost predicate TokensTell(files: set<string>, names: set<string>) {
    forall a: Place, b: Place ::
      Among(a, files, names) && Among(b, files, names) && b.file.Some? && Token(a) == Token(b) ==> a == b
  }

  lemma FewerTell(files: set<string>, names: set<string>, someFiles: set<string>, someNames: set<string>)
    requires TokensTell(files, names) && someFiles <= files && someNames <= names
    ensures TokensTell(someFiles, someNames)
  {
  }

  /** Without colons in names tokens tell places apart, whatever is in the file names. */
  lemma NoColonTells(files: set<string>, names: set<string>)
    requires (forall n <- names :: ':' !in n) && "undefined" !in files
    ensures TokensTell(files, names)
  {
    forall a: Place, b: Place | Among(a, files, names) && Among(b, files, names) && b.file.Some? && Token(a) == Token(b)
      ensures a == b
    {
      TokenTells(a, b);
    }
  }

  lemma TokenTells(a: Place, b: Place)
    requires ':' !in a.name && ':' !in b.name && Token(a) == Token(b)
    ensures a.name == b.name && (a.file == b.file || a.file.None? || b.file.None?)
    ensures a.file != b.file ==>
            (a.file.None? || a.file.value == "undefined") && (b.file.None? || b.file.value == "undefined")
  {
    var t, u := FileText(a.file), FileText(b.file);
    LastColon(t, a.name);
    LastColon(u, b.name);
    assert |t| == |u| && Token(a)[|t|] == ':' && Token(b)[|u|] == ':';
    assert a.name == Token(a)[|t| + 1..] == Token(b)[|u| + 1..] == b.name;
    assert t == Token(a)[..|t|] == Token(b)[..|u|] == u;
  }

  lemma LastColon(t: string, name: string)
    requires ':' !in name
    ensures var s := t + ":" + name; s[|t|] == ':' && forall i :: |t| < i < |s| ==> s[i] != ':'
  {
    var s := t + ":" + name;
    forall i | |t| < i < |s| ensures s[i] != ':' {
      assert s[i] == name[i - |t| - 1];
    }
  }

  lemma {:induction false} NotFoundExplores(p: Program, names: set<string>, at: Place, seen: set<string>)
    requires Covers(p, names) && TokensTell(p.asts.Keys, names)
             && Among(at, p.asts.Keys, names) && !Visit(p, names, at, seen).found
    ensures Token(at) in Visit(p, names, at, seen).seen
    ensures AddedExplored(p, names, seen, Visit(p, names, at, seen).seen)
    decreases |Tokens(p, names) - seen|, 0
  {
    var after := Visit(p, names, at, seen).seen;
    if Token(at) !in seen {
      var start := seen + {Token(at)};
      if Links(p, at) != [] {
        Shrinks(p, names, at, seen);
        NotFoundLinksExplore(p, names, at, Links(p, at), start);
      }
      assert Explored(p, at, after) && AddedExplored(p, names, start, after);
      OwnExplored(p, names, at, seen, after);
    }
  }

  /** Adding a place's token adds no other place that has links. */
  lemma OwnExplored(p: Program, names: set<string>, at: Place, seen: set<string>, after: set<string>)
    requires TokensTell(p.asts.Keys, names) && Among(at, p.asts.Keys, names) && Explored(p, at, after)
    requires AddedExplored(p, names, seen + {Token(at)}, after)
    ensures AddedExplored(p, names, seen, after)
  {
    forall other: Place | other.name in names && Token(other) == Token(at) ensures Explored(p, other, after) {
      if Links(p, other) != [] {
        assert Among(other, p.asts.Keys, names);
      }
    }
    hide Explored, Token;
  }

  lemma {:induction false} NotFoundLinksExplore(p: Program, names: set<string>, at: Place, links: seq<Link>,
                                                seen: set<string>)
    requires Covers(p, names) && TokensTell(p.asts.Keys, names) && Within(links, names)
    requires !VisitLinks(p, names, at, links, seen).found
    ensures ExploredLinks(p, at, links, VisitLinks(p, names, at, links, seen).seen)
    ensures AddedExplored(p, names, seen, VisitLinks(p, names, at, links, seen).seen)
    decreases |Tokens(p, names) - seen|, |links| + 1
  {
    if links != [] {
      var next := Next(p, at, links[0]);
      var r := Visit(p, names, next, seen);
      NotFoundExplores(p, names, next, seen);
      Fewer(Tokens(p, names) - r.seen, Tokens(p, names) - seen);
      NotFoundLinksExplore(p, names, at, links[1..], r.seen);
      var after := VisitLinks(p, names, at, links, seen).seen;
      forall other: Place | other.name in names && Token(other) in r.seen && Token(other) !in seen
        ensures Explored(p, other, after)
      {
        assert Explored(p, other, r.seen);
      }
    }
  }

  /** From an explored set nothing is reached. */
  lemma {:induction false} ExploredReachesNothing(p: Program, names: set<string>, at: Place, seen: set<string>, n: nat)
    requires Covers(p, names) && at.name in names && Token(at) in seen && AddedExplored(p, names, {}, seen)
    ensures !ReachesIn(p, at, n)
    decreases n
  {
    if n > 0 {
      forall i | 0 <= i < |Links(p, at)| ensures !ReachesIn(p, Next(p, at, Links(p, at)[i]), n - 1) {
        ExploredReachesNothing(p, names, Next(p, at, Links(p, at)[i]), seen, n - 1);
      }
    }
  }

  /** The search started afresh, as the code does. */
  function Finds(p: Program, at: Place): bool {
    OriginalsCover(p, at.name);
    Visit(p, Originals(p) + {at.name}, at, {}).found
  }

  /** The search, also through cyclic re-exports, answers true exactly when a re-export path reaches `__`
      in a framework module; when tokens may coincide, an answer of true is still right. */
  lemma FindsExactly(p: Program, at: Place)
    ensures Finds(p, at) ==> Reaches(p, at)
    ensures TokensTell(p.asts.Keys, Originals(p) + {at.name}) ==> (Finds(p, at) <==> Reaches(p, at))
  {
    var names := Originals(p) + {at.name};
    OriginalsCover(p, at.name);
    var r := Visit(p, names, at, {});
    if r.found {
      FoundReaches(p, names, at, {});
    } else if TokensTell(p.asts.Keys, names) && Links(p, at) != [] {
      NotFoundExplores(p, names, at, {});
      forall n: nat ensures !ReachesIn(p, at, n) {
        ExploredReachesNothing(p, names, at, r.seen, n);
      }
    }
  }

  // ---------- What the links are ----------

  /** The element passes this name on, as `original`. */
  predicate Passes(e: Element, name: string, original: string) {
    !e.typeOnly && e.name == name && e.original == original
  }

  /** A value import binds the local name to the link's original. */
  ghost predicate Imports(declarations: seq<Statement>, local: string, link: Link) {
    exists d, b :: d in declarations && d.Import? && !d.typeOnly && d.specifier == link.specifier
                   && b in d.bindings && Passes(b, local, link.original)
  }

  /** A value re-export of the name: of everything, of this name, or of a local that an import binds. */
  ghost predicate Reexports(tree: seq<Statement>, s: Statement, name: string, link: Link) {
    match s
    case ExportLocal(typeOnly, elements) =>
      !typeOnly && exists e :: e in elements && !e.typeOnly && e.name == name && Imports(tree, e.original, link)
    case ExportAll(typeOnly, specifier) => !typeOnly && link == Link(specifier, name)
    case ExportFrom(typeOnly, specifier, elements) =>
      !typeOnly && link.specifier == specifier && exists e :: e in elements && Passes(e, name, link.original)
    case _ => false
  }

  lemma {:induction false} BindingLinksMean(specifier: string, bindings: seq<Element>, local: string, link: Link)
    ensures link in BindingLinks(specifier, bindings, local)
            <==> link.specifier == specifier && exists b :: b in bindings && Passes(b, local, link.original)
  {
    if bindings != [] {
      BindingLinksMean(specifier, bindings[1..], local, link);
      var first := if !bindings[0].typeOnly && bindings[0].name == local then [Link(specifier, bindings[0].original)]
                   else [];
      assert BindingLinks(specifier, bindings, local) == first + BindingLinks(specifier, bindings[1..], local);
      assert link in first <==> link.specifier == specifier && Passes(bindings[0], local, link.original);
      assert forall b :: b in bindings <==> b == bindings[0] || b in bindings[1..];
    }
  }

  lemma {:induction false} ImportLinksMean(declarations: seq<Statement>, local: string, link: Link)
    ensures link in ImportLinks(declarations, local) <==> Imports(declarations, local, link)
  {
    if declarations != [] {
      var d := declarations[0];
      ImportLinksMean(declarations[1..], local, link);
      if d.Import? { BindingLinksMean(d.specifier, d.bindings, local, link); }
      assert forall e :: e in declarations <==> e == d || e in declarations[1..];
    }
  }

  lemma {:induction false} ElementLinksMean(tree: seq<Statement>, elements: seq<Element>, name: string, link: Link)
    ensures link in ElementLinks(tree, elements, name)
            <==> exists e :: e in elements && !e.typeOnly && e.name == name && Imports(tree, e.original, link)
  {
    if elements != [] {
      ElementLinksMean(tree, elements[1..], name, link);
      ImportLinksMean(tree, elements[0].original, link);
      assert forall e :: e in elements <==> e == elements[0] || e in elements[1..];
    }
  }

  lemma StatementLinksMean(tree: seq<Statement>, s: Statement, name: string, link: Link)
    ensures link in StatementLinks(tree, s, name) <==> Reexports(tree, s, name, link)
  {
    match s
    case ExportLocal(_, elements) => ElementLinksMean(tree, elements, name, link);
    case ExportFrom(_, specifier, elements) => BindingLinksMean(specifier, elements, name, link);
    case _ =>
  }

  /** The search follows exactly the value re-exports of the name. */
  lemma {:induction false} TreeLinksMean(tree: seq<Statement>, statements: seq<Statement>, name: string, link: Link)
    ensures link in TreeLinks(tree, statements, name) <==> exists s :: s in statements && Reexports(tree, s, name, link)
  {
    if statements != [] {
      TreeLinksMean(tree, statements[1..], name, link);
      StatementLinksMean(tree, statements[0], name, link);
      assert forall s :: s in statements <==> s == statements[0] || s in statements[1..];
    }
  }

  /** One element re-exported from a file. */
  lemma OneFrom(tree: seq<Statement>, specifier: string, original: string, name: string)
    ensures StatementLinks(tree, ExportFrom(false, specifier, [Element(original, name, false)]), name)
            == [Link(specifier, original)]
  {
    var e := [Element(original, name, false)];
    assert BindingLinks(specifier, e[1..], name) == [];
  }

  // ---------- When the search is exact ----------

  /** A program over these files and names. */
  predicate Over(p: Program, files: set<string>, names: set<string>) {
    p.asts.Keys <= files && Originals(p) <= names
  }

  /** The search is exact from every place of every such program. */
  ghost predicate ExactOver(files: set<string>, names: set<string>) {
    forall p: Program, at: Place :: Over(p, files, names) && Among(at, p.asts.Keys, names) ==>
      (Finds(p, at) <==> Reaches(p, at))
  }

  /** `name` comes from the place `a`, where nothing is, and then from `hidden` in the same file, which is the
      framework's. */
  function HidingTree(a: Place, hidden: string, name: string): seq<Statement> {
    [ExportFrom(false, "./first", [Element(a.name, name, false)]),
     ExportFrom(false, "./second", [Element(hidden, name, false)]),
     ExportFrom(false, "framework", [Element("__", hidden, false)])]
  }

  function HidingProgram(a: Place, file: string, hidden: string, name: string): Program {
    var empty: map<string, seq<Statement>> := if a.file.Some? then map[a.file.value := []] else map[];
    Program(empty[file := HidingTree(a, hidden, name)],
            (from, specifier) => if specifier == "./first" then a.file
              else if specifier == "./second" then Some(file) else None,
            {"framework"})
  }

  /** An element of another name gives no link. */
  lemma NoneFrom(tree: seq<Statement>, specifier: string, original: string, exported: string, name: string)
    requires exported != name
    ensures StatementLinks(tree, ExportFrom(false, specifier, [Element(original, exported, false)]), name) == []
  {
    var e := [Element(original, exported, false)];
    assert BindingLinks(specifier, e[1..], name) == [];
  }

  lemma ThreeLinks(tree: seq<Statement>, name: string)
    requires |tree| == 3
    ensures TreeLinks(tree, tree, name)
         == StatementLinks(tree, tree[0], name) + StatementLinks(tree, tree[1], name)
           + StatementLinks(tree, tree[2], name)
  {
    var last := tree[1..][1..];
    assert last == [tree[2]] && TreeLinks(tree, last[1..], name) == [];
    assert TreeLinks(tree, last, name) == StatementLinks(tree, tree[2], name);
    assert TreeLinks(tree, tree[1..], name) == StatementLinks(tree, tree[1], name) + TreeLinks(tree, last, name);
  }

  lemma HidingLinks(a: Place, file: string, hidden: string, name: string)
    requires a.file != Some(file) && name != hidden
    ensures var p := HidingProgram(a, file, hidden, name);
            && Links(p, Place(Some(file), name)) == [Link("./first", a.name), Link("./second", hidden)]
            && Links(p, Place(Some(file), hidden)) == [Link("framework", "__")]
            && Links(p, a) == []
  {
    var tree := HidingTree(a, hidden, name);
    ThreeLinks(tree, name);
    ThreeLinks(tree, hidden);
    OneFrom(tree, "./first", a.name, name);
    OneFrom(tree, "./second", hidden, name);
    NoneFrom(tree, "framework", "__", hidden, name);
    NoneFrom(tree, "./first", a.name, name, hidden);
    NoneFrom(tree, "./second", hidden, name, hidden);
    OneFrom(tree, "framework", "__", hidden);
    hide StatementLinks, HidingTree;
  }

  lemma HidingOver(a: Place, file: string, hidden: string, name: string, files: set<string>, names: set<string>)
    requires Among(a, files, names) && file in files && hidden in names && name in names && "__" in names
    ensures Over(HidingProgram(a, file, hidden, name), files, names)
  {
    var p := HidingProgram(a, file, hidden, name);
    forall f, s, e | f in p.asts && s in p.asts[f] && e in ElementsOf(s) ensures e.original in names {
    }
  }

  lemma SameFileTokens(file: Option<string>, a: string, b: string)
    requires Token(Place(file, a)) == Token(Place(file, b))
    ensures a == b
  {
    var t := FileText(file);
    assert a == Token(Place(file, a))[|t| + 1..] == Token(Place(file, b))[|t| + 1..] == b;
  }

  /** Two places with one token: in the program that tries one and then the other, the search misses what
      the second leads to. */
  lemma CollisionHides(a: Place, file: string, hidden: string, name: string)
    requires a.file != Some(file) && name != hidden && Token(a) == Token(Place(Some(file), hidden))
    ensures var p, at := HidingProgram(a, file, hidden, name), Place(Some(file), name);
            Reaches(p, at) && !Finds(p, at)
  {
    var p, at, b := HidingProgram(a, file, hidden, name), Place(Some(file), name), Place(Some(file), hidden);
    var names := Originals(p) + {name};
    OriginalsCover(p, name);
    HidingLinks(a, file, hidden, name);
    var links := Links(p, at);
    assert Next(p, at, links[0]) == a && Next(p, at, links[1]) == b;
    assert Goal(p, Links(p, b)[0]) && ReachesIn(p, b, 0) && ReachesIn(p, at, 1);
    if Token(at) == Token(b) { SameFileTokens(Some(file), name, hidden); }
    hide Links, Originals, Token, Next, HidingProgram;
    var seen := {Token(at)};
    assert Visit(p, names, a, seen) == Search(false, seen + {Token(a)});
    assert Visit(p, names, b, seen + {Token(a)}) == Search(false, seen + {Token(a)});
    assert links[1..][1..] == [];
    assert VisitLinks(p, names, at, links[1..], seen + {Token(a)}) == Search(false, seen + {Token(a)});
    assert VisitLinks(p, names, at, links, seen) == Search(false, seen + {Token(a)});
    assert {} + {Token(at)} == seen;
  }

  /** The search is exact for every program over given files and names exactly when tokens tell their places
      apart. */
  lemma ExactExactly(files: set<string>, names: set<string>)
    requires "__" in names && exists n :: n in names && n != "__"
    ensures ExactOver(files, names) <==> TokensTell(files, names)
  {
    if TokensTell(files, names) {
      forall p: Program, at: Place | Over(p, files, names) && Among(at, p.asts.Keys, names)
        ensures Finds(p, at) <==> Reaches(p, at)
      {
        FewerTell(files, names, p.asts.Keys, Originals(p) + {at.name});
        FindsExactly(p, at);
      }
    } else {
      var a: Place, b: Place :| Among(a, files, names) && Among(b, files, names)
        && b.file.Some? && Token(a) == Token(b) && a != b;
      if a.file == b.file { SameFileTokens(a.file, a.name, b.name); }
      var other :| other in names && other != "__";
      var name := if a.name != b.name then a.name else if b.name != "__" then "__" else other;
      CollisionHides(a, b.file.value, b.name, name);
      HidingOver(a, b.file.value, b.name, name, files, names);
      var p := HidingProgram(a, b.file.value, b.name, name);
      assert Among(Place(b.file, name), p.asts.Keys, names);
    }
  }

  /** For instance, an exported name with a colon can hide a translation export. */
  lemma ColonHides()
    ensures !ExactOver({"/a.ts", "/a.ts:b.ts"}, {"b.ts:y", "y", "__"})
  {
    var files, names := {"/a.ts", "/a.ts:b.ts"}, {"b.ts:y", "y", "__"};
    var a, b := Place(Some("/a.ts"), "b.ts:y"), Place(Some("/a.ts:b.ts"), "y");
    assert Among(a, files, names) && Among(b, files, names)
           && Token(a) == Token(b) == "/a.ts:b.ts:y" && |a.name| != |b.name|;
    assert "y" in names && |"y"| != |"__"|;
    ExactExactly(files, names);
  }

  // ---------- The search over statements ----------

  lemma {:induction false} VisitBoth(p: Program, names: set<string>, at: Place, a: seq<Link>, b: seq<Link>,
                                     seen: set<string>)
    requires Covers(p, names) && Within(a, names) && Within(b, names)
    ensures Within(a + b, names)
    ensures var first := VisitLinks(p, names, at, a, seen);
            VisitLinks(p, names, at, a + b, seen)
              == if first.found then first else VisitLinks(p, names, at, b, first.seen)
    decreases |Tokens(p, names) - seen|, |a|
  {
    if a == [] {
      assert a + b == b;
    } else {
      assert (a + b)[0] == a[0] && (a + b)[1..] == a[1..] + b;
      if !Goal(p, a[0]) {
        var r := Visit(p, names, Next(p, at, a[0]), seen);
        if !r.found {
          Fewer(Tokens(p, names) - r.seen, Tokens(p, names) - seen);
          VisitBoth(p, names, at, a[1..], b, r.seen);
        }
      }
    }
  }

  /** Visiting what is left gives what visiting everything from the start gives. */
  ghost predicate Rest(p: Program, names: set<string>, at: Place, left: seq<Link>, now: set<string>, all: seq<Link>,
                       start: set<string>)
  {
    && Covers(p, names) && Within(left, names) && Within(all, names) && start <= now
    && VisitLinks(p, names, at, left, now) == VisitLinks(p, names, at, all, start)
  }

  lemma RestStep(p: Program, names: set<string>, at: Place, a: seq<Link>, b: seq<Link>, now: set<string>,
                 all: seq<Link>, start: set<string>)
    requires Within(a, names) && Within(b, names) && Rest(p, names, at, a + b, now, all, start)
    ensures var r := VisitLinks(p, names, at, a, now);
            if r.found then VisitLinks(p, names, at, all, start) == r else Rest(p, names, at, b, r.seen, all, start)
  {
    VisitBoth(p, names, at, a, b, now);
  }

  /** Every file's elements use these names. */
  ghost predicate AllHold(p: Program, names: set<string>) {
    forall f <- p.asts :: Holds(p.asts[f], names)
  }

  class Finder {
    const p: Program
    ghost const names: set<string>
    /** Shared by the whole search. */
    var seen: set<string>

    ghost predicate Ready() {
      Covers(p, names) && AllHold(p, names)
    }

    constructor (p: Program, ghost names: set<string>)
      ensures this.p == p && this.names == names && seen == {}
    {
      this.p := p;
      this.names := names;
      seen := {};
    }

    method Find(at: Place) returns (found: bool)
      requires Ready() && at.name in names
      modifies this
      ensures Search(found, seen) == Visit(p, names, at, old(seen))
      decreases |Tokens(p, names) - seen|, 0
    {
      if Token(at) in seen {
        return false;
      }
      ghost var before := seen;
      seen := seen + {Token(at)};
      if at.file.None? || at.file.value !in p.asts {
        return false;
      }
      if Links(p, at) == [] {
        return false;
      }
      Shrinks(p, names, at, before);
      found := VisitTree(at, p.asts[at.file.value]);
    }

    method VisitTree(at: Place, tree: seq<Statement>) returns (found: bool)
      requires Ready() && at.name in names && Holds(tree, names) && Within(TreeLinks(tree, tree, at.name), names)
      modifies this
      ensures Search(found, seen) == VisitLinks(p, names, at, TreeLinks(tree, tree, at.name), old(seen))
      decreases |Tokens(p, names) - seen|, 6
    {
      ghost var all, start := TreeLinks(tree, tree, at.name), seen;
      assert tree[0..] == tree;
      for i := 0 to |tree|
        invariant Rest(p, names, at, TreeLinks(tree, tree[i..], at.name), seen, all, start)
      {
        ghost var now := seen;
        StatementWithin(tree, tree[i], at.name, names);
        TreeWithin(tree, tree[i + 1..], at.name, names);
        assert tree[i..][0] == tree[i] && tree[i..][1..] == tree[i + 1..];
        RestStep(p, names, at, StatementLinks(tree, tree[i], at.name),
                 TreeLinks(tree, tree[i + 1..], at.name), now, all, start);
        Fewer(Tokens(p, names) - seen, Tokens(p, names) - start);
        found := VisitStatement(at, tree, tree[i]);
        if found {
          return;
        }
      }
      found := false;
    }

    method VisitStatement(at: Place, tree: seq<Statement>, s: Statement) returns (found: bool)
      requires Ready() && at.name in names && Holds(tree, names) && HoldsElements(ElementsOf(s), names)
      requires Within(StatementLinks(tree, s, at.name), names)
      modifies this
      ensures Search(found, seen) == VisitLinks(p, names, at, StatementLinks(tree, s, at.name), old(seen))
      decreases |Tokens(p, names) - seen|, 5
    {
      match s
      case ExportLocal(typeOnly, elements) =>
        found := false;
        if !typeOnly {
          found := VisitElements(at, tree, elements);
        }
      case ExportAll(typeOnly, specifier) =>
        found := false;
        if !typeOnly {
          found := Follow(at, Link(specifier, at.name));
        }
      case ExportFrom(typeOnly, specifier, elements) =>
        found := false;
        if !typeOnly {
          found := VisitBindings(at, specifier, elements, at.name);
        }
      case Import(_, _, _) => found := false;
      case OtherStatement => found := false;
    }

    method VisitElements(at: Place, tree: seq<Statement>, elements: seq<Element>) returns (found: bool)
      requires Ready() && at.name in names && Holds(tree, names) && Within(ElementLinks(tree, elements, at.name), names)
      modifies this
      ensures Search(found, seen) == VisitLinks(p, names, at, ElementLinks(tree, elements, at.name), old(seen))
      decreases |Tokens(p, names) - seen|, 4
    {
      ghost var all, start := ElementLinks(tree, elements, at.name), seen;
      assert elements[0..] == elements;
      for i := 0 to |elements|
        invariant Rest(p, names, at, ElementLinks(tree, elements[i..], at.name), seen, all, start)
      {
        var e := elements[i];
        ghost var now := seen;
        ElementsWithin(tree, elements[i + 1..], at.name, names);
        ImportsWithin(tree, e.original, names);
        assert elements[i..][0] == e && elements[i..][1..] == elements[i + 1..];
        ghost var first := if !e.typeOnly && e.name == at.name then ImportLinks(tree, e.original) else [];
        RestStep(p, names, at, first, ElementLinks(tree, elements[i + 1..], at.name), now, all, start);
        Fewer(Tokens(p, names) - seen, Tokens(p, names) - start);
        if !e.typeOnly && e.name == at.name {
          found := VisitImports(at, tree, e.original);
          if found {
            return;
          }
        }
      }
      found := false;
    }

    method VisitImports(at: Place, tree: seq<Statement>, local: string) returns (found: bool)
      requires Ready() && at.name in names && Holds(tree, names) && Within(ImportLinks(tree, local), names)
      modifies this
      ensures Search(found, seen) == VisitLinks(p, names, at, ImportLinks(tree, local), old(seen))
      decreases |Tokens(p, names) - seen|, 3
    {
      ghost var all, start := ImportLinks(tree, local), seen;
      assert tree[0..] == tree;
      for i := 0 to |tree|
        invariant Rest(p, names, at, ImportLinks(tree[i..], local), seen, all, start)
      {
        var d := tree[i];
        ghost var now := seen;
        ImportsWithin(tree[i + 1..], local, names);
        assert tree[i..][0] == d && tree[i..][1..] == tree[i + 1..];
        if d.Import? { BindingsWithin(d.specifier, d.bindings, local, names); }
        ghost var first := if d.Import? && !d.typeOnly then BindingLinks(d.specifier, d.bindings, local) else [];
        RestStep(p, names, at, first, ImportLinks(tree[i + 1..], local), now, all, start);
        Fewer(Tokens(p, names) - seen, Tokens(p, names) - start);
        if d.Import? && !d.typeOnly {
          found := VisitBindings(at, d.specifier, d.bindings, local);
          if found {
            return;
          }
        }
      }
      found := false;
    }

    method VisitBindings(at: Place, specifier: string, bindings: seq<Element>, local: string) returns (found: bool)
      requires Ready() && at.name in names && Within(BindingLinks(specifier, bindings, local), names)
      modifies this
      ensures Search(found, seen) == VisitLinks(p, names, at, BindingLinks(specifier, bindings, local), old(seen))
      decreases |Tokens(p, names) - seen|, 2
    {
      ghost var all, start := BindingLinks(specifier, bindings, local), seen;
      assert bindings[0..] == bindings;
      for i := 0 to |bindings|
        invariant Rest(p, names, at, BindingLinks(specifier, bindings[i..], local), seen, all, start)
      {
        var b := bindings[i];
        ghost var now := seen;
        assert bindings[i..][0] == b && bindings[i..][1..] == bindings[i + 1..];
        ghost var first := if !b.typeOnly && b.name == local then [Link(specifier, b.original)] else [];
        ghost var left := BindingLinks(specifier, bindings[i + 1..], local);
        WithinParts(first, left, names);
        RestStep(p, names, at, first, left, now, all, start);
        Fewer(Tokens(p, names) - seen, Tokens(p, names) - start);
        if !b.typeOnly && b.name == local {
          found := Follow(at, Link(specifier, b.original));
          if found {
            return;
          }
        }
      }
      found := false;
    }

    method Follow(at: Place, link: Link) returns (found: bool)
      requires Ready() && link.original in names
      modifies this
      ensures Search(found, seen) == VisitLinks(p, names, at, [link], old(seen))
      decreases |Tokens(p, names) - seen|, 1
    {
      assert [link][1..] == [];
      if link.specifier in p.modules && link.original == "__" {
        return true;
      }
      found := Find(Next(p, at, link));
    }
  }

  lemma WithinParts(a: seq<Link>, b: seq<Link>, names: set<string>)
    requires Within(a + b, names)
    ensures Within(a, names) && Within(b, names)
  {
    forall i | 0 <= i < |a| ensures a[i].original in names { assert (a + b)[i] == a[i]; }
    forall i | 0 <= i < |b| ensures b[i].original in names { assert (a + b)[|a| + i] == b[i]; }
  }

  method IsTranslationExport(p: Program, at: Place) returns (found: bool)
    ensures found ==> Reaches(p, at)
    ensures found == Finds(p, at)
    ensures TokensTell(p.asts.Keys, Originals(p) + {at.name}) ==> (found <==> Reaches(p, at))
  {
    ghost var names := Originals(p) + {at.name};
    OriginalsCover(p, at.name);
    OriginalsHold(p, names);
    var finder := new Finder(p, names);
    found := finder.Find(at);
    FindsExactly(p, at);
  }

  lemma OriginalsHold(p: Program, names: set<string>)
    requires Originals(p) <= names
    ensures AllHold(p, names)
  {
    forall f, j, k | f in p.asts && 0 <= j < |p.asts[f]| && 0 <= k < |ElementsOf(p.asts[f][j])|
      ensures ElementsOf(p.asts[f][j])[k].original in names
    {
      assert p.asts[f][j] in p.asts[f] && ElementsOf(p.asts[f][j])[k] in ElementsOf(p.asts[f][j]);
    }
  }
}
