/** Editing JSON text with comments: collecting range edits and splicing them in, the rest untouched. */
module JsoncEdit {
  import opened Wrappers

  datatype Edit = Edit(start: nat, end: nat, text: string)

  // ---------- What applying edits means ----------

  predicate InText(text: string, e: Edit) {
    e.start <= e.end <= |text|
  }

  /** Ranges within the text, with distinct starts, none reaching past the start of a later one. */
  ghost predicate Separate(text: string, edits: seq<Edit>) {
    && (forall i :: 0 <= i < |edits| ==> InText(text, edits[i]))
    && (forall i, j :: 0 <= i < |edits| && 0 <= j < |edits| && i != j ==> Apart(edits[i], edits[j]))
  }

  predicate Apart(a: Edit, b: Edit) {
    a.start != b.start && (a.start < b.start ==> a.end <= b.start) && (b.start < a.start ==> b.end <= a.start)
  }

  /** Edits by falling start. */
  predicate Falling(edits: seq<Edit>) {
    forall i, j :: 0 <= i < j < |edits| ==> edits[i].start >= edits[j].start
  }

  /** The text from an offset with edits, given by falling start, in place of their ranges: the untouched
      gaps in order with the replacement texts between them. */
  function Substituted(text: string, edits: seq<Edit>, from: nat): string
    requires from <= |text|
  {
    if edits == [] then text[from..]
    else
      var e := edits[|edits| - 1];
      if from <= e.start <= e.end <= |text|
      then text[from..e.start] + e.text + Substituted(text, edits[..|edits| - 1], e.end)
      else text[from..]
  }

  // ---------- Sorting and splicing ----------

  function Insert(e: Edit, sorted: seq<Edit>): seq<Edit> {
    if sorted == [] || e.start > sorted[0].start then [e] + sorted else [sorted[0]] + Insert(e, sorted[1..])
  }

  /** The stable sort by falling start. */
  function Sorted(edits: seq<Edit>): seq<Edit> {
    if edits == [] then [] else Insert(edits[|edits| - 1], Sorted(edits[..|edits| - 1]))
  }

  lemma {:induction false} InsertHas(e: Edit, sorted: seq<Edit>)
    ensures multiset(Insert(e, sorted)) == multiset(sorted) + multiset{e}
  {
    if sorted != [] && e.start <= sorted[0].start {
      InsertHas(e, sorted[1..]);
      assert sorted == [sorted[0]] + sorted[1..];
    }
  }

  lemma {:induction false} InsertFalls(e: Edit, sorted: seq<Edit>)
    requires Falling(sorted)
    ensures Falling(Insert(e, sorted))
  {
    if sorted != [] && e.start <= sorted[0].start {
      InsertFalls(e, sorted[1..]);
      InsertHas(e, sorted[1..]);
      var r := Insert(e, sorted[1..]);
      forall j | 0 <= j < |r| ensures r[j].start <= sorted[0].start {
        assert r[j] in multiset(r);
      }
    }
  }

  lemma {:induction false} SortedFalls(edits: seq<Edit>)
    ensures Falling(Sorted(edits)) && multiset(Sorted(edits)) == multiset(edits)
  {
    if edits != [] {
      var n := |edits| - 1;
      SortedFalls(edits[..n]);
      InsertFalls(edits[n], Sorted(edits[..n]));
      InsertHas(edits[n], Sorted(edits[..n]));
      assert edits == edits[..n] + [edits[n]];
    }
  }

  lemma ConsSeparate(text: string, first: Edit, rest: seq<Edit>)
    requires Separate(text, rest) && InText(text, first) && forall j :: 0 <= j < |rest| ==> Apart(first, rest[j])
    ensures Separate(text, [first] + rest)
  {
    var all := [first] + rest;
    assert all[0] == first && forall j :: 1 <= j < |all| ==> all[j] == rest[j - 1];
  }

  lemma TailSeparate(text: string, edits: seq<Edit>)
    requires Separate(text, edits) && edits != []
    ensures Separate(text, edits[1..]) && InText(text, edits[0])
    ensures forall j :: 0 <= j < |edits[1..]| ==> Apart(edits[0], edits[1..][j])
  {
    var rest := edits[1..];
    assert forall j :: 0 <= j < |rest| ==> rest[j] == edits[j + 1];
  }

  lemma {:induction false} InsertSeparate(text: string, e: Edit, sorted: seq<Edit>)
    requires Separate(text, sorted) && InText(text, e) && forall i :: 0 <= i < |sorted| ==> Apart(e, sorted[i])
    ensures Separate(text, Insert(e, sorted))
  {
    if sorted == [] || e.start > sorted[0].start {
      ConsSeparate(text, e, sorted);
    } else {
      var rest := sorted[1..];
      TailSeparate(text, sorted);
      assert forall i :: 0 <= i < |rest| ==> rest[i] == sorted[i + 1];
      InsertSeparate(text, e, rest);
      InsertHas(e, rest);
      var r := Insert(e, rest);
      hide Separate;
      forall j | 0 <= j < |r| ensures Apart(sorted[0], r[j]) {
        assert r[j] in multiset(r);
        if r[j] != e {
          var k :| 0 <= k < |rest| && rest[k] == r[j];
        }
      }
      ConsSeparate(text, sorted[0], r);
    }
  }

  lemma {:induction false} SortedSeparate(text: string, edits: seq<Edit>)
    requires Separate(text, edits)
    ensures Separate(text, Sorted(edits))
  {
    if edits != [] {
      var n := |edits| - 1;
      SortedSeparate(text, edits[..n]);
      SortedFalls(edits[..n]);
      var sorted := Sorted(edits[..n]);
      forall i | 0 <= i < |sorted| ensures Apart(edits[n], sorted[i]) {
        assert sorted[i] in multiset(edits[..n]);
        var k :| 0 <= k < n && edits[k] == sorted[i];
      }
      InsertSeparate(text, edits[n], sorted);
    }
  }

  function Min(a: nat, b: nat): nat {
    if a < b then a else b
  }

  /** Offsets past the end count as the end. */
  function Splice(next: string, e: Edit): string {
    next[..Min(e.start, |next|)] + e.text + next[Min(e.end, |next|)..]
  }

  /** One splice after the other. */
  function SpliceAll(text: string, edits: seq<Edit>): string {
    if edits == [] then text else Splice(SpliceAll(text, edits[..|edits| - 1]), edits[|edits| - 1])
  }

  lemma SpliceNext(text: string, edits: seq<Edit>, i: nat)
    requires i < |edits|
    ensures SpliceAll(text, edits[..i + 1]) == Splice(SpliceAll(text, edits[..i]), edits[i])
  {
    assert edits[..i + 1][..i] == edits[..i];
  }

  /** The start of the last edit done, which is the lowest so far. */
  function Low(text: string, done: seq<Edit>): nat {
    if done == [] then |text| else done[|done| - 1].start
  }

  lemma FromEarlier(text: string, done: seq<Edit>, from: nat)
    requires Separate(text, done) && from <= Low(text, done) <= |text|
    ensures Substituted(text, done, from) == text[from..Low(text, done)] + Substituted(text, done, Low(text, done))
  {
    if done != [] {
      var e := done[|done| - 1];
      assert InText(text, e);
      assert text[e.start..e.start] == "";
      assert Substituted(text, done, e.start) == e.text + Substituted(text, done[..|done| - 1], e.end);
    }
  }

  lemma EarlierSeparate(text: string, done: seq<Edit>, e: Edit)
    requires Separate(text, done + [e]) && Falling(done + [e]) && InText(text, e)
    ensures Separate(text, done) && e.end <= Low(text, done) <= |text|
  {
    var all, n := done + [e], |done|;
    assert all[n] == e && forall i :: 0 <= i < n ==> all[i] == done[i];
    if n > 0 {
      assert InText(text, all[n - 1]) && Apart(all[n - 1], all[n]);
    }
  }

  lemma LowestFirst(text: string, done: seq<Edit>, e: Edit)
    requires InText(text, e)
    ensures Substituted(text, done + [e], e.start) == e.text + Substituted(text, done, e.end)
  {
    var all := done + [e];
    assert all[|done|] == e && all[..|done|] == done;
    assert text[e.start..e.start] + e.text == e.text;
  }

  lemma SpliceJoined(text: string, rest: string, lo: nat, e: Edit)
    requires e.start <= e.end <= lo <= |text|
    ensures Splice(text[..lo] + rest, e) == text[..e.start] + (e.text + (text[e.end..lo] + rest))
  {
    CutJoined(text, rest, lo, e.start, e.end);
    SpliceText(text[..lo] + rest, e);
    Associates(text[..e.start], e.text, text[e.end..lo] + rest);
  }

  lemma SpliceStep(text: string, done: seq<Edit>, e: Edit)
    requires Separate(text, done + [e]) && Falling(done + [e]) && InText(text, e)
    ensures Separate(text, done) && e.end <= Low(text, done) <= |text|
    ensures Splice(text[..Low(text, done)] + Substituted(text, done, Low(text, done)), e)
         == text[..e.start] + Substituted(text, done + [e], e.start)
  {
    hide Separate, Falling, Substituted, Low, Splice;
    EarlierSeparate(text, done, e);
    FromEarlier(text, done, e.end);
    LowestFirst(text, done, e);
    SpliceJoined(text, Substituted(text, done, Low(text, done)), Low(text, done), e);
  }

  lemma SpliceText(next: string, e: Edit)
    requires e.start <= e.end <= |next|
    ensures Splice(next, e) == next[..e.start] + e.text + next[e.end..]
  {
  }

  lemma Associates(a: string, b: string, c: string)
    ensures a + b + c == a + (b + c)
  {
  }

  lemma CutJoined(text: string, rest: string, lo: nat, start: nat, end: nat)
    requires start <= end <= lo <= |text|
    ensures (text[..lo] + rest)[..start] == text[..start]
    ensures (text[..lo] + rest)[end..] == text[end..lo] + rest
  {
  }

  // ---------- The editor ----------

  /** Where the parser found a property and its value. */
  datatype Property = Property(name: string, start: nat, end: nat, valueStart: nat, valueEnd: nat)
  /** `trailingComma`: where the comma after the last property stands, if there is one. */
  datatype Node = Node(start: nat, properties: seq<Property>, trailingComma: Option<nat>)

  function FindProperty(properties: seq<Property>, key: string): (i: nat)
    ensures i <= |properties| && (i < |properties| ==> properties[i].name == key)
    ensures forall j :: 0 <= j < i ==> properties[j].name != key
  {
    if properties == [] || properties[0].name == key then 0 else 1 + FindProperty(properties[1..], key)
  }

  function LineStart(text: string, offset: nat): (start: nat)
    requires offset <= |text|
    ensures start <= offset
  {
    if offset == 0 || text[offset - 1] == '\n' then offset else LineStart(text, offset - 1)
  }

  function Blanks(text: string): string {
    if text == "" || (text[0] != ' ' && text[0] != '\t') then "" else [text[0]] + Blanks(text[1..])
  }

  function Indentation(text: string, offset: nat): string
    requires offset <= |text|
  {
    Blanks(text[LineStart(text, offset)..offset])
  }

  /** The comma is the first one after the last property, behind blanks and comments. */
  predicate CommaAt(text: string, node: Node, comma: nat) {
    && node.properties != [] && comma < |text| && text[comma] == ','
    && var end := node.properties[|node.properties| - 1].end; end <= comma && (end < comma ==> text[end] != ',')
  }

  /** What the parser guarantees about an object in this text: values inside properties, properties in
      order, everything before the closing brace. */
  predicate Located(text: string, node: Node) {
    && node.start + 1 < |text| && text[node.start] == '{'
    && (node.trailingComma.Some? ==> CommaAt(text, node, node.trailingComma.value))
    && (forall i :: 0 <= i < |node.properties| ==>
         var p := node.properties[i];
         node.start < p.start < p.valueStart < p.valueEnd <= p.end
           && p.end + (if node.trailingComma.Some? then 1 else 0) < |text|)
    && (forall i, j :: 0 <= i < j < |node.properties| ==> node.properties[i].end <= node.properties[j].start)
  }

  /** Where new properties go: right inside the brace, or at the end of the last one, one further if a comma
      follows it somewhere. */
  function InsertionPoint(node: Node): nat {
    if node.properties == [] then node.start + 1
    else node.properties[|node.properties| - 1].end + if node.trailingComma.Some? then 1 else 0
  }

  /** That is inside the braces: behind the opening one in an empty object, else behind the last property. */
  lemma InsertedInside(text: string, node: Node)
    requires Located(text, node)
    ensures node.start < InsertionPoint(node) < |text|
    ensures node.properties == [] ==> text[InsertionPoint(node) - 1] == '{'
    ensures forall i :: 0 <= i < |node.properties| ==> node.properties[i].end <= InsertionPoint(node)
  {
    if node.properties != [] {
      var last := |node.properties| - 1;
      assert node.start < node.properties[last].start;
    }
  }

  function NewEntry(text: string, node: Node, keyJson: string, json: string): string
    requires Located(text, node)
  {
    var indent := if node.properties == [] then Indentation(text, node.start) + "  "
                  else Indentation(text, node.properties[|node.properties| - 1].start);
    "\n" + indent + keyJson + ": " + json + ","
  }

  function InsertionAt(edits: seq<Edit>, position: nat): (i: nat)
    ensures i <= |edits| && (i < |edits| ==> edits[i].start == edits[i].end == position)
    ensures forall j :: 0 <= j < i ==> !(edits[j].start == edits[j].end == position)
  {
    if edits == [] || edits[0].start == edits[0].end == position then 0 else 1 + InsertionAt(edits[1..], position)
  }

  function Comma(node: Node): string {
    if node.properties != [] && node.trailingComma.None? then "," else ""
  }

  /** The edits after setting a key: a changed value replaces the authored one, a new property joins the
      insertion at its position if there is one. */
  function AfterSet(text: string, edits: seq<Edit>, node: Node, key: string, keyJson: string, json: string): seq<Edit>
    requires Located(text, node)
  {
    var i := FindProperty(node.properties, key);
    if i < |node.properties| then
      var p := node.properties[i];
      if text[p.valueStart..p.valueEnd] == json then edits else edits + [Edit(p.valueStart, p.valueEnd, json)]
    else
      var at, entry := InsertionPoint(node), NewEntry(text, node, keyJson, json);
      var prior := InsertionAt(edits, at);
      if prior < |edits| then edits[prior := edits[prior].(text := edits[prior].text + entry)]
      else edits + [Edit(at, at, Comma(node) + entry)]
  }

  ghost predicate SameStart(edits: seq<Edit>) {
    exists i, j :: 0 <= i < j < |edits| && edits[i].start == edits[j].start
  }

  class Editor {
    const text: string
    var edits: seq<Edit>

    constructor (text: string)
      ensures this.text == text && edits == []
    {
      this.text := text;
      edits := [];
    }

    method Set(node: Node, key: string, keyJson: string, json: string)
      requires Located(text, node)
      modifies this
      ensures edits == AfterSet(text, old(edits), node, key, keyJson, json)
    {
      var i := FindProperty(node.properties, key);
      if i < |node.properties| {
        var p := node.properties[i];
        if text[p.valueStart..p.valueEnd] != json {
          edits := edits + [Edit(p.valueStart, p.valueEnd, json)];
        }
        return;
      }
      var comma := Comma(node);
      var position := InsertionPoint(node);
      var entry := NewEntry(text, node, keyJson, json);
      var prior := InsertionAt(edits, position);
      if prior < |edits| {
        edits := edits[prior := edits[prior].(text := edits[prior].text + entry)];
      } else {
        edits := edits + [Edit(position, position, comma + entry)];
      }
    }

    method Ambiguous() returns (ambiguous: bool)
      ensures ambiguous <==> SameStart(edits)
    {
      var positions: set<nat> := {};
      for i := 0 to |edits|
        invariant forall p :: p in positions <==> exists j :: 0 <= j < i && edits[j].start == p
        invariant forall j, k :: 0 <= j < k < i ==> edits[j].start != edits[k].start
      {
        if edits[i].start in positions {
          return true;
        }
        positions := positions + {edits[i].start};
      }
      ambiguous := false;
    }

    /** Nothing when two edits start at one place, else one splice after the other from the end; for separate
        edits that is all of them substituted at once. */
    method Apply() returns (result: Option<string>)
      ensures result.None? <==> SameStart(edits)
      ensures result.Some? ==> result.value == SpliceAll(text, Sorted(edits))
      ensures result.Some? && Separate(text, edits) ==> result.value == Substituted(text, Sorted(edits), 0)
    {
      var ambiguous := Ambiguous();
      if ambiguous {
        return None;
      }
      var next, sorted := text, Sorted(edits);
      SplicedStart(text, edits);
      hide *;
      for i := 0 to |sorted|
        invariant next == SpliceAll(text, sorted[..i])
        invariant Separate(text, sorted) ==> Spliced(text, sorted[..i], next)
      {
        SpliceNext(text, sorted, i);
        if Separate(text, sorted) { SplicedStep(text, sorted, i, next); }
        next := Splice(next, sorted[i]);
      }
      SplicedEnd(text, sorted, next);
      result := Some(next);
    }
  }

  /** The text after the edits done so far, which leave everything before the lowest as it was. */
  ghost predicate Spliced(text: string, done: seq<Edit>, next: string) {
    && Separate(text, done) && Low(text, done) <= |text|
    && next == text[..Low(text, done)] + Substituted(text, done, Low(text, done))
  }

  lemma SplicedStart(text: string, edits: seq<Edit>)
    ensures SpliceAll(text, Sorted(edits)[..0]) == text && Spliced(text, Sorted(edits)[..0], text)
    ensures Falling(Sorted(edits)) && (Separate(text, edits) ==> Separate(text, Sorted(edits)))
  {
    SortedFalls(edits);
    if Separate(text, edits) { SortedSeparate(text, edits); }
    assert text[..|text|] + text[|text|..] == text;
  }

  lemma SplicedEnd(text: string, sorted: seq<Edit>, next: string)
    ensures sorted[..|sorted|] == sorted
    ensures Separate(text, sorted) && Spliced(text, sorted, next) ==> next == Substituted(text, sorted, 0)
  {
    if Separate(text, sorted) && Spliced(text, sorted, next) { FromEarlier(text, sorted, 0); }
  }

  lemma SplicedStep(text: string, sorted: seq<Edit>, i: nat, next: string)
    requires Separate(text, sorted) && Falling(sorted) && i < |sorted| && Spliced(text, sorted[..i], next)
    ensures Spliced(text, sorted[..i + 1], Splice(next, sorted[i]))
  {
    PrefixSeparate(text, sorted, i + 1);
    assert sorted[..i + 1] == sorted[..i] + [sorted[i]];
    assert InText(text, sorted[i]);
    SpliceStep(text, sorted[..i], sorted[i]);
  }

  lemma PrefixSeparate(text: string, edits: seq<Edit>, n: nat)
    requires Separate(text, edits) && Falling(edits) && n <= |edits|
    ensures Separate(text, edits[..n]) && Falling(edits[..n])
  {
  }

  // ---------- Setting properties of one object ----------

  /** An edit made by setting a key of the node among those done: at the value of such a property, or the
      insertion. */
  predicate MadeBy(node: Node, done: set<string>, e: Edit) {
    (e.start == e.end == InsertionPoint(node)) ||
    exists i ::
      0 <= i < |node.properties| && node.properties[i].name in done
        && FindProperty(node.properties, node.properties[i].name) == i
                && e.start == node.properties[i].valueStart && e.end == node.properties[i].valueEnd
  }

  ghost predicate Made(text: string, node: Node, done: set<string>, edits: seq<Edit>) {
    Separate(text, edits) && forall k :: 0 <= k < |edits| ==> MadeBy(node, done, edits[k])
  }

  lemma ValuesApart(text: string, node: Node, i: nat, j: nat, a: Edit, b: Edit)
    requires Located(text, node) && i < |node.properties| && j < |node.properties| && i != j
    requires a.start == node.properties[i].valueStart && a.end == node.properties[i].valueEnd
    requires b.start == node.properties[j].valueStart && b.end == node.properties[j].valueEnd
    ensures Apart(a, b)
  {
  }

  lemma ValueBeforeInsertion(text: string, node: Node, i: nat, a: Edit, b: Edit)
    requires Located(text, node) && i < |node.properties|
    requires a.start == node.properties[i].valueStart && a.end == node.properties[i].valueEnd
    requires b.start == b.end == InsertionPoint(node)
    ensures Apart(a, b) && Apart(b, a) && InText(text, a)
  {
    var last := |node.properties| - 1;
    assert node.properties[i].end <= node.properties[last].end;
  }

  lemma AddSeparate(text: string, edits: seq<Edit>, e: Edit)
    requires Separate(text, edits) && InText(text, e) && forall k :: 0 <= k < |edits| ==> Apart(edits[k], e)
    ensures Separate(text, edits + [e])
  {
    var all := edits + [e];
    assert forall k :: 0 <= k < |edits| ==> all[k] == edits[k];
    assert all[|edits|] == e;
  }

  lemma MadeMore(text: string, node: Node, done: set<string>, edits: seq<Edit>, key: string)
    requires Made(text, node, done, edits)
    ensures Made(text, node, done + {key}, edits)
  {
    forall k | 0 <= k < |edits| ensures MadeBy(node, done + {key}, edits[k]) {
      assert MadeBy(node, done, edits[k]);
    }
  }

  lemma ReplaceKeeps(text: string, node: Node, done: set<string>, edits: seq<Edit>, key: string, e: Edit)
    requires Located(text, node) && Made(text, node, done, edits) && key !in done
    requires var i := FindProperty(node.properties, key);
             i < |node.properties| && e.start == node.properties[i].valueStart && e.end == node.properties[i].valueEnd
    ensures Made(text, node, done + {key}, edits + [e])
  {
    var i := FindProperty(node.properties, key);
    assert InText(text, e) by {
      ValueBeforeInsertion(text, node, i, e, Edit(InsertionPoint(node), InsertionPoint(node), ""));
    }
    forall k | 0 <= k < |edits| ensures Apart(edits[k], e) {
      assert MadeBy(node, done, edits[k]);
      if edits[k].start == edits[k].end == InsertionPoint(node) {
        ValueBeforeInsertion(text, node, i, e, edits[k]);
      } else {
        var j :| 0 <= j < |node.properties| && node.properties[j].name in done
          && FindProperty(node.properties, node.properties[j].name) == j
                 && edits[k].start == node.properties[j].valueStart && edits[k].end == node.properties[j].valueEnd;
        ValuesApart(text, node, j, i, edits[k], e);
      }
    }
    AddSeparate(text, edits, e);
    MadeMore(text, node, done, edits, key);
    assert MadeBy(node, done + {key}, e);
  }

  lemma NewInsertionKeeps(text: string, node: Node, done: set<string>, edits: seq<Edit>, key: string, e: Edit)
    requires Located(text, node) && Made(text, node, done, edits)
    requires e.start == e.end == InsertionPoint(node) && InsertionAt(edits, e.start) == |edits|
    ensures Made(text, node, done + {key}, edits + [e])
  {
    forall k | 0 <= k < |edits| ensures Apart(edits[k], e) {
      assert MadeBy(node, done, edits[k]);
      var j :| 0 <= j < |node.properties| && node.properties[j].name in done
        && FindProperty(node.properties, node.properties[j].name) == j
               && edits[k].start == node.properties[j].valueStart && edits[k].end == node.properties[j].valueEnd;
      ValueBeforeInsertion(text, node, j, edits[k], e);
    }
    AddSeparate(text, edits, e);
    MadeMore(text, node, done, edits, key);
  }

  lemma JoinedInsertionKeeps(text: string, node: Node, done: set<string>, edits: seq<Edit>, key: string, prior: nat,
                             joined: Edit)
    requires Made(text, node, done, edits) && prior < |edits|
    requires joined.start == edits[prior].start && joined.end == edits[prior].end
    ensures Made(text, node, done + {key}, edits[prior := joined])
  {
    var all := edits[prior := joined];
    MadeMore(text, node, done, edits, key);
    forall k | 0 <= k < |all|
      ensures all[k].start == edits[k].start && all[k].end == edits[k].end
              && InText(text, all[k]) && MadeBy(node, done + {key}, all[k])
    {
      assert InText(text, edits[k]) && MadeBy(node, done + {key}, edits[k]);
    }
    forall i, j | 0 <= i < |all| && 0 <= j < |all| && i != j ensures Apart(all[i], all[j]) {
      assert Apart(edits[i], edits[j]);
    }
  }

  /** Setting a key not set before on an object keeps the edits separate, so applying them substitutes
      them all at once and is never ambiguous. */
  lemma SetKeepsSeparate(text: string, node: Node, done: set<string>, edits: seq<Edit>, key: string, keyJson: string,
                         json: string)
    requires Located(text, node) && Made(text, node, done, edits) && key !in done
    ensures Made(text, node, done + {key}, AfterSet(text, edits, node, key, keyJson, json))
  {
    var i := FindProperty(node.properties, key);
    var at := InsertionPoint(node);
    var prior := InsertionAt(edits, at);
    if i < |node.properties| {
      MadeMore(text, node, done, edits, key);
      ReplaceKeeps(text, node, done, edits, key,
                   Edit(node.properties[i].valueStart, node.properties[i].valueEnd, json));
    } else if prior < |edits| {
      JoinedInsertionKeeps(text, node, done, edits, key, prior,
                           edits[prior].(text := edits[prior].text + NewEntry(text, node, keyJson, json)));
    } else {
      hide Made;
      NewInsertionKeeps(text, node, done, edits, key,
        Edit(at, at, Comma(node) + NewEntry(text, node, keyJson, json)));
    }
  }

  datatype Setting = Setting(key: string, keyJson: string, json: string)

  function AfterSets(text: string, node: Node, settings: seq<Setting>): seq<Edit>
    requires Located(text, node)
  {
    if settings == [] then []
    else
      var last := settings[|settings| - 1];
      AfterSet(text, AfterSets(text, node, settings[..|settings| - 1]), node, last.key, last.keyJson, last.json)
  }

  lemma {:induction false} SetsSeparate(text: string, node: Node, settings: seq<Setting>)
    requires Located(text, node) && forall i, j :: 0 <= i < j < |settings| ==> settings[i].key != settings[j].key
    ensures Made(text, node, set s <- settings :: s.key, AfterSets(text, node, settings))
  {
    if settings != [] {
      var n := |settings| - 1;
      SetsSeparate(text, node, settings[..n]);
      var done, last := set s <- settings[..n] :: s.key, settings[n];
      SetKeepsSeparate(text, node, done, AfterSets(text, node, settings[..n]), last.key, last.keyJson, last.json);
      assert settings == settings[..n] + [last];
      assert (set s <- settings :: s.key) == done + {last.key};
    }
  }

  /** Setting different keys of one object and applying is never ambiguous and gives the text with every
      edit substituted at once, all else preserved. */
  lemma SetsApply(text: string, node: Node, settings: seq<Setting>)
    requires Located(text, node) && forall i, j :: 0 <= i < j < |settings| ==> settings[i].key != settings[j].key
    ensures Separate(text, AfterSets(text, node, settings)) && !SameStart(AfterSets(text, node, settings))
  {
    SetsSeparate(text, node, settings);
    var edits := AfterSets(text, node, settings);
    forall i, j | 0 <= i < j < |edits| ensures edits[i].start != edits[j].start {
      assert Apart(edits[i], edits[j]);
    }
  }

  /** The entries of new properties, in the order they were set. */
  function Entries(text: string, node: Node, settings: seq<Setting>): string
    requires Located(text, node)
  {
    if settings == [] then ""
    else
      var last := settings[|settings| - 1];
      Entries(text, node, settings[..|settings| - 1]) + NewEntry(text, node, last.keyJson, last.json)
  }

  lemma FirstNewKey(text: string, node: Node, s: Setting)
    requires Located(text, node) && FindProperty(node.properties, s.key) == |node.properties|
    ensures var at := InsertionPoint(node);
            AfterSet(text, [], node, s.key, s.keyJson, s.json)
              == [Edit(at, at, Comma(node) + NewEntry(text, node, s.keyJson, s.json))]
  {
    hide NewEntry, Located;
  }

  lemma NextNewKey(text: string, node: Node, s: Setting, sofar: string)
    requires Located(text, node) && FindProperty(node.properties, s.key) == |node.properties|
    ensures var at := InsertionPoint(node);
            AfterSet(text, [Edit(at, at, sofar)], node, s.key, s.keyJson, s.json)
            == [Edit(at, at, sofar + NewEntry(text, node, s.keyJson, s.json))]
  {
    hide NewEntry, Located;
    var at := InsertionPoint(node);
    assert InsertionAt([Edit(at, at, sofar)], at) == 0;
  }

  /** New properties make one insertion: a comma only if an authored property without one stands before it,
      then every entry in order. */
  lemma {:induction false} NewKeysJoin(text: string, node: Node, settings: seq<Setting>)
    requires Located(text, node) && settings != []
    requires forall i :: 0 <= i < |settings| ==> FindProperty(node.properties, settings[i].key) == |node.properties|
    ensures var at := InsertionPoint(node);
            AfterSets(text, node, settings) == [Edit(at, at, Comma(node) + Entries(text, node, settings))]
  {
    hide AfterSet, NewEntry, Located, InsertionPoint, Comma, FindProperty;
    var n := |settings| - 1;
    var entry := NewEntry(text, node, settings[n].keyJson, settings[n].json);
    if n == 0 {
      assert settings[..0] == [];
      FirstNewKey(text, node, settings[0]);
      assert "" + entry == entry;
    } else {
      NewKeysJoin(text, node, settings[..n]);
      NextNewKey(text, node, settings[n], Comma(node) + Entries(text, node, settings[..n]));
      Associates(Comma(node), Entries(text, node, settings[..n]), entry);
    }
  }

  lemma OneInsertion(text: string, at: nat, inserted: string)
    requires at <= |text|
    ensures Substituted(text, Sorted([Edit(at, at, inserted)]), 0) == text[..at] + inserted + text[at..]
  {
    var edits := [Edit(at, at, inserted)];
    assert edits[..0] == [] && Sorted(edits) == edits;
    assert Substituted(text, edits[..0], at) == text[at..];
    assert text[0..at] == text[..at];
  }

  /** So the edited text is the authored one with those entries put in at that place. */
  lemma NewKeysApplied(text: string, node: Node, settings: seq<Setting>)
    requires Located(text, node) && settings != []
    requires forall i :: 0 <= i < |settings| ==> FindProperty(node.properties, settings[i].key) == |node.properties|
    ensures InsertionPoint(node) <= |text|
    ensures Substituted(text, Sorted(AfterSets(text, node, settings)), 0)
            == text[..InsertionPoint(node)] + (Comma(node) + Entries(text, node, settings))
              + text[InsertionPoint(node)..]
  {
    NewKeysJoin(text, node, settings);
    hide AfterSets, Entries, Comma, Substituted, Sorted;
    OneInsertion(text, InsertionPoint(node), Comma(node) + Entries(text, node, settings));
  }

  /** Between the last authored property and the new entries the edited text has a comma and nothing else
      exactly when there was no trailing comma or it stands directly behind the property. */
  lemma CommaBetween(text: string, node: Node)
    requires Located(text, node) && node.properties != []
    ensures var end := node.properties[|node.properties| - 1].end;
            && end <= InsertionPoint(node) <= |text|
            && (text[end..InsertionPoint(node)] + Comma(node) == "," <==>
                node.trailingComma.None? || node.trailingComma.value == end)
  {
    var end, at := node.properties[|node.properties| - 1].end, InsertionPoint(node);
    if node.trailingComma.None? {
      assert text[end..at] == "";
    } else {
      assert text[end..at] + Comma(node) == [text[end]];
    }
  }

  /** In the edited text: the authored part up to the last property, that, the entries, and the rest. */
  lemma NewKeysSeparated(text: string, node: Node, settings: seq<Setting>)
    requires Located(text, node) && settings != [] && node.properties != []
    requires forall i :: 0 <= i < |settings| ==> FindProperty(node.properties, settings[i].key) == |node.properties|
    ensures var end, at := node.properties[|node.properties| - 1].end, InsertionPoint(node);
            && end <= at <= |text|
            && Substituted(text, Sorted(AfterSets(text, node, settings)), 0)
               == text[..end] + (text[end..at] + Comma(node)) + Entries(text, node, settings) + text[at..]
  {
    NewKeysApplied(text, node, settings);
    CommaBetween(text, node);
    var end, at := node.properties[|node.properties| - 1].end, InsertionPoint(node);
    hide Substituted, AfterSets, Entries, Comma, Located, InsertionPoint;
    Regroup(text, end, at, Comma(node), Entries(text, node, settings));
  }

  lemma Regroup(text: string, end: nat, at: nat, comma: string, entries: string)
    requires end <= at <= |text|
    ensures text[..at] + (comma + entries) + text[at..] == text[..end] + (text[end..at] + comma) + entries + text[at..]
  {
    assert text[..at] == text[..end] + text[end..at];
    Associates(text[..end], text[end..at], comma + entries);
    Associates(text[end..at], comma, entries);
    Associates(text[..end], text[end..at] + comma, entries);
  }

  const DETACHED: string := "{\"a\": 1 ,}"
  const DETACHED_NODE: Node := Node(0, [Property("a", 1, 7, 6, 7)], Some(8))

  lemma DetachedLocated()
    ensures Located(DETACHED, DETACHED_NODE) && InsertionPoint(DETACHED_NODE) == 8 && Comma(DETACHED_NODE) == ""
    ensures FindProperty(DETACHED_NODE.properties, "b") == 1
  {
    var text := DETACHED;
    assert text[7] == ' ' && text[8] == ',' && |text| == 10;
    assert "a"[0] != "b"[0];
    assert FindProperty(DETACHED_NODE.properties[1..], "b") == 0;
  }

  lemma DetachedEntries(settings: seq<Setting>)
    requires settings == [Setting("b", "\"b\"", "2")]
    ensures Located(DETACHED, DETACHED_NODE) && Entries(DETACHED, DETACHED_NODE, settings) == "\n\"b\": 2,"
  {
    DetachedLocated();
    var text := DETACHED;
    hide Located;
    assert text[0] == '{' && LineStart(text, 0) == 0 && LineStart(text, 1) == 0;
    assert text[0..1] == "{" && Blanks("{") == "" && Indentation(text, 1) == "";
    assert NewEntry(text, DETACHED_NODE, "\"b\"", "2") == "\n" + "" + "\"b\"" + ": " + "2" + ",";
    assert settings[..0] == [] && Entries(text, DETACHED_NODE, settings[..0]) == "";
  }

  /** A trailing comma behind a blank ends up after the entries, which then follow the property without one
      and end in two. */
  lemma DetachedComma()
    ensures Located(DETACHED, DETACHED_NODE)
    ensures Substituted(DETACHED, Sorted(AfterSets(DETACHED, DETACHED_NODE, [Setting("b", "\"b\"", "2")])), 0)
            == "{\"a\": 1 " + "\n\"b\": 2," + ",}"
  {
    var settings := [Setting("b", "\"b\"", "2")];
    DetachedLocated();
    DetachedEntries(settings);
    hide Substituted, Sorted, AfterSets, Entries, Located, Comma, InsertionPoint, FindProperty;
    NewKeysApplied(DETACHED, DETACHED_NODE, settings);
    assert "" + Entries(DETACHED, DETACHED_NODE, settings) == Entries(DETACHED, DETACHED_NODE, settings);
    assert DETACHED[..8] == "{\"a\": 1 " && DETACHED[8..] == ",}";
  }

  // ---------- Old and new properties set together ----------

  /** The setting of the property at this index, if there is one. */
  function SettingOf(node: Node, settings: seq<Setting>, i: nat): Option<Setting> {
    if settings == [] then None
    else
      var last := settings[|settings| - 1];
      if FindProperty(node.properties, last.key) == i then Some(last)
      else SettingOf(node, settings[..|settings| - 1], i)
  }

  /** The settings of keys the object does not have. */
  function NewOnes(node: Node, settings: seq<Setting>): seq<Setting> {
    if settings == [] then []
    else
      var last := settings[|settings| - 1];
      NewOnes(node, settings[..|settings| - 1])
        + if FindProperty(node.properties, last.key) == |node.properties| then [last] else []
  }

  /** The text of a property's value after the settings. */
  function ValueNow(text: string, node: Node, settings: seq<Setting>, i: nat): string
    requires Located(text, node) && i < |node.properties|
  {
    var s := SettingOf(node, settings, i);
    if s.Some? then s.value.json else text[node.properties[i].valueStart..node.properties[i].valueEnd]
  }

  /** Where the part of the text begins that the first k properties do not reach. */
  function Reach(node: Node, k: nat): nat
    requires k <= |node.properties|
  {
    if k == 0 then 0 else node.properties[k - 1].end
  }

  /** The authored text up to a place, with the values of the first k properties as they are now. */
  function WithValues(text: string, node: Node, settings: seq<Setting>, k: nat, upto: nat): string
    requires Located(text, node) && k <= |node.properties| && Reach(node, k) <= upto <= |text|
    decreases k
  {
    if k == 0 then text[..upto]
    else
      var p := node.properties[k - 1];
      WithValues(text, node, settings, k - 1, p.valueStart) + ValueNow(text, node, settings, k - 1)
        + text[p.valueEnd..upto]
  }

  function Inserted(text: string, node: Node, settings: seq<Setting>): string
    requires Located(text, node)
  {
    if NewOnes(node, settings) == [] then "" else Comma(node) + Entries(text, node, NewOnes(node, settings))
  }

  predicate DifferentKeys(settings: seq<Setting>) {
    forall i, j :: 0 <= i < j < |settings| ==> settings[i].key != settings[j].key
  }

  /** The property's value is set to another text. */
  predicate Changed(text: string, node: Node, settings: seq<Setting>, i: nat)
    requires Located(text, node) && i < |node.properties|
  {
    ValueNow(text, node, settings, i) != text[node.properties[i].valueStart..node.properties[i].valueEnd]
  }

  function ValueEdit(text: string, node: Node, settings: seq<Setting>, i: nat): Edit
    requires Located(text, node) && i < |node.properties|
  {
    Edit(node.properties[i].valueStart, node.properties[i].valueEnd, ValueNow(text, node, settings, i))
  }

  function Insertion(text: string, node: Node, settings: seq<Setting>): Edit
    requires Located(text, node)
  {
    Edit(InsertionPoint(node), InsertionPoint(node), Inserted(text, node, settings))
  }

  /** The edits there have to be: one where a value changes, and the insertion if there is a new key. */
  ghost predicate Expected(text: string, node: Node, settings: seq<Setting>, e: Edit)
    requires Located(text, node)
  {
    InsertionExpected(text, node, settings, e) || ValueExpected(text, node, settings, e)
  }

  predicate InsertionExpected(text: string, node: Node, settings: seq<Setting>, e: Edit)
    requires Located(text, node)
  {
    NewOnes(node, settings) != [] && e == Insertion(text, node, settings)
  }

  ghost predicate ValueExpected(text: string, node: Node, settings: seq<Setting>, e: Edit)
    requires Located(text, node)
  {
    exists i :: 0 <= i < |node.properties| && ChangedTo(text, node, settings, i, e)
  }

  predicate ChangedTo(text: string, node: Node, settings: seq<Setting>, i: nat, e: Edit)
    requires Located(text, node) && i < |node.properties|
  {
    Changed(text, node, settings, i) && e == ValueEdit(text, node, settings, i)
  }

  lemma SettingOfLast(node: Node, settings: seq<Setting>, i: nat)
    requires settings != []
    ensures var init, last := settings[..|settings| - 1], settings[|settings| - 1];
            SettingOf(node, settings, i)
            == if FindProperty(node.properties, last.key) == i then Some(last) else SettingOf(node, init, i)
  {
  }

  /** A key not set before has no setting yet. */
  lemma {:induction false} SettingOfOther(node: Node, settings: seq<Setting>, key: string)
    requires forall s <- settings :: s.key != key
    requires FindProperty(node.properties, key) < |node.properties|
    ensures SettingOf(node, settings, FindProperty(node.properties, key)) == None
  {
    if settings != [] {
      SettingOfOther(node, settings[..|settings| - 1], key);
    }
  }

  lemma KeysBefore(settings: seq<Setting>)
    requires settings != [] && DifferentKeys(settings)
    ensures var init, last := settings[..|settings| - 1], settings[|settings| - 1];
            DifferentKeys(init) && forall s <- init :: s.key != last.key
  {
  }

  /** Setting an old key changes the value of that property only. */
  lemma OldKeyValue(text: string, node: Node, settings: seq<Setting>, j: nat)
    requires Located(text, node) && settings != [] && DifferentKeys(settings) && j < |node.properties|
    requires FindProperty(node.properties, settings[|settings| - 1].key) < |node.properties|
    ensures var init, last := settings[..|settings| - 1], settings[|settings| - 1];
            var i := FindProperty(node.properties, last.key);
            && ValueNow(text, node, settings, j) == (if j == i then last.json else ValueNow(text, node, init, j))
            && (j == i ==> !Changed(text, node, init, j))
  {
    KeysBefore(settings);
    SettingOfLast(node, settings, j);
    SettingOfOther(node, settings[..|settings| - 1], settings[|settings| - 1].key);
    hide FindProperty, SettingOf;
  }

  predicate ValueSet(text: string, p: Property, json: string, e: Edit)
    requires p.valueStart <= p.valueEnd <= |text|
  {
    text[p.valueStart..p.valueEnd] != json && e == Edit(p.valueStart, p.valueEnd, json)
  }

  lemma OldKeyValues(text: string, node: Node, settings: seq<Setting>, e: Edit)
    requires Located(text, node) && settings != [] && DifferentKeys(settings)
    requires FindProperty(node.properties, settings[|settings| - 1].key) < |node.properties|
    ensures var init, last := settings[..|settings| - 1], settings[|settings| - 1];
            ValueExpected(text, node, settings, e) <==>
              ValueExpected(text, node, init, e)
              || ValueSet(text, node.properties[FindProperty(node.properties, last.key)], last.json, e)
  {
    var init, last := settings[..|settings| - 1], settings[|settings| - 1];
    var i := FindProperty(node.properties, last.key);
    forall j | 0 <= j < |node.properties|
      ensures ChangedTo(text, node, settings, j, e)
              <==> if j == i then ValueSet(text, node.properties[i], last.json, e)
                else ChangedTo(text, node, init, j, e)
      ensures j == i ==> !ChangedTo(text, node, init, j, e)
    {
      OldKeyValue(text, node, settings, j);
      hide Located, FindProperty, ValueNow;
    }
    hide Located, FindProperty, ChangedTo, ValueSet;
    if ValueSet(text, node.properties[i], last.json, e) {
      assert ChangedTo(text, node, settings, i, e);
    }
    if ValueExpected(text, node, init, e) {
      var j :| 0 <= j < |node.properties| && ChangedTo(text, node, init, j, e);
      assert ChangedTo(text, node, settings, j, e);
    }
  }

  /** Setting an old key adds its edit if the value changes. */
  lemma OldKeyExpected(text: string, node: Node, settings: seq<Setting>, e: Edit)
    requires Located(text, node) && settings != [] && DifferentKeys(settings)
    requires FindProperty(node.properties, settings[|settings| - 1].key) < |node.properties|
    ensures var init, last := settings[..|settings| - 1], settings[|settings| - 1];
            Expected(text, node, settings, e) <==>
              Expected(text, node, init, e)
              || ValueSet(text, node.properties[FindProperty(node.properties, last.key)], last.json, e)
  {
    OldKeyValues(text, node, settings, e);
    var init := settings[..|settings| - 1];
    assert NewOnes(node, settings) == NewOnes(node, init) + [] == NewOnes(node, init);
    hide Located, FindProperty, ValueExpected, ValueSet, NewOnes, Entries, Comma, InsertionPoint;
  }

  /** Setting a new key changes no value. */
  lemma NewKeyValues(text: string, node: Node, settings: seq<Setting>, e: Edit)
    requires Located(text, node) && settings != []
    requires FindProperty(node.properties, settings[|settings| - 1].key) == |node.properties|
    ensures ValueExpected(text, node, settings, e) <==> ValueExpected(text, node, settings[..|settings| - 1], e)
  {
    var init := settings[..|settings| - 1];
    forall j | 0 <= j < |node.properties|
      ensures ChangedTo(text, node, settings, j, e) <==> ChangedTo(text, node, init, j, e)
    {
      SettingOfLast(node, settings, j);
      hide Located, FindProperty, SettingOf;
    }
    hide Located, FindProperty, ChangedTo;
  }

  /** Values are not empty, so no value's edit is an insertion. */
  lemma ValueNotInserted(text: string, node: Node, settings: seq<Setting>, e: Edit)
    requires Located(text, node) && ValueExpected(text, node, settings, e)
    ensures e.start < e.end
  {
    var i :| 0 <= i < |node.properties| && ChangedTo(text, node, settings, i, e);
    hide ValueNow;
  }

  /** The edits made are the edits there have to be. */
  ghost predicate Exactly(text: string, node: Node, settings: seq<Setting>, edits: seq<Edit>)
    requires Located(text, node)
  {
    forall e :: e in edits <==> Expected(text, node, settings, e)
  }

  lemma OldKeyExactly(text: string, node: Node, settings: seq<Setting>, edits: seq<Edit>)
    requires Located(text, node) && settings != [] && DifferentKeys(settings)
    requires FindProperty(node.properties, settings[|settings| - 1].key) < |node.properties|
    requires Exactly(text, node, settings[..|settings| - 1], edits)
    ensures var last := settings[|settings| - 1];
            Exactly(text, node, settings, AfterSet(text, edits, node, last.key, last.keyJson, last.json))
  {
    var init, last := settings[..|settings| - 1], settings[|settings| - 1];
    var after := AfterSet(text, edits, node, last.key, last.keyJson, last.json);
    var p := node.properties[FindProperty(node.properties, last.key)];
    assert forall e :: e in after <==> e in edits || ValueSet(text, p, last.json, e);
    hide Located, FindProperty, AfterSet, Expected, ValueSet;
    forall e ensures e in after <==> Expected(text, node, settings, e) {
      OldKeyExpected(text, node, settings, e);
    }
  }

  /** Among the edits made, the insertion is the one of no length. */
  lemma InsertionFound(text: string, node: Node, settings: seq<Setting>, edits: seq<Edit>)
    requires Located(text, node) && Exactly(text, node, settings, edits)
    ensures var prior := InsertionAt(edits, InsertionPoint(node));
            && (prior < |edits| <==> NewOnes(node, settings) != [])
            && (prior < |edits| ==> edits[prior] == Insertion(text, node, settings))
  {
    var at := InsertionPoint(node);
    var prior := InsertionAt(edits, at);
    hide Located, NewOnes, Inserted, ValueExpected;
    if NewOnes(node, settings) != [] {
      assert Expected(text, node, settings, Insertion(text, node, settings));
    }
    if prior < |edits| {
      assert edits[prior] in edits && Expected(text, node, settings, edits[prior]);
      if ValueExpected(text, node, settings, edits[prior]) {
        ValueNotInserted(text, node, settings, edits[prior]);
      }
    }
  }

  lemma NewInserted(text: string, node: Node, settings: seq<Setting>)
    requires Located(text, node) && settings != []
    requires FindProperty(node.properties, settings[|settings| - 1].key) == |node.properties|
    ensures var init, last := settings[..|settings| - 1], settings[|settings| - 1];
            var entry := NewEntry(text, node, last.keyJson, last.json);
            && NewOnes(node, settings) != []
            && Inserted(text, node, settings)
               == if NewOnes(node, init) == [] then Comma(node) + entry else Inserted(text, node, init) + entry
  {
    var init, last := settings[..|settings| - 1], settings[|settings| - 1];
    var before, entry := NewOnes(node, init), NewEntry(text, node, last.keyJson, last.json);
    assert NewOnes(node, settings) == before + [last];
    EntriesMore(text, node, before, last);
    hide NewEntry, Located, FindProperty, Comma, NewOnes;
    if before == [] {
      NoEntries(text, node, entry);
    } else {
      hide Entries;
      Associates(Comma(node), Entries(text, node, before), entry);
    }
  }

  lemma EntriesMore(text: string, node: Node, before: seq<Setting>, last: Setting)
    requires Located(text, node)
    ensures Entries(text, node, before + [last])
            == Entries(text, node, before) + NewEntry(text, node, last.keyJson, last.json)
  {
    assert (before + [last])[..|before|] == before;
    hide NewEntry, Located;
  }

  lemma NoEntries(text: string, node: Node, entry: string)
    requires Located(text, node)
    ensures Entries(text, node, []) + entry == entry
  {
  }

  lemma NewKeyExactly(text: string, node: Node, settings: seq<Setting>, edits: seq<Edit>)
    requires Located(text, node) && settings != []
    requires FindProperty(node.properties, settings[|settings| - 1].key) == |node.properties|
    requires Separate(text, edits) && Exactly(text, node, settings[..|settings| - 1], edits)
    ensures var last := settings[|settings| - 1];
            Exactly(text, node, settings, AfterSet(text, edits, node, last.key, last.keyJson, last.json))
  {
    var init, last := settings[..|settings| - 1], settings[|settings| - 1];
    var after := AfterSet(text, edits, node, last.key, last.keyJson, last.json);
    var prior := InsertionAt(edits, InsertionPoint(node));
    InsertionFound(text, node, init, edits);
    NewInserted(text, node, settings);
    var gone, here := Insertion(text, node, init), Insertion(text, node, settings);
    assert after == if prior < |edits| then edits[prior := here] else edits + [here];
    if prior < |edits| { OthersStay(text, edits, prior, here); }
    forall e
      ensures Expected(text, node, settings, e) <==>
              e == here || (Expected(text, node, init, e) && (prior < |edits| ==> e != gone))
    {
      NewKeyExpected(text, node, settings, e);
    }
    hide *;
    forall e ensures e in after <==> e == here || (e in edits && (prior < |edits| ==> e != gone)) {
    }
    ExactlyBy(text, node, settings, after, here, gone, prior < |edits|, edits);
  }

  lemma ExactlyBy(text: string, node: Node, settings: seq<Setting>, after: seq<Edit>, here: Edit, gone: Edit,
                  joined: bool, edits: seq<Edit>)
    requires Located(text, node) && settings != [] && Exactly(text, node, settings[..|settings| - 1], edits)
    requires forall e :: Expected(text, node, settings, e) <==>
               e == here || (Expected(text, node, settings[..|settings| - 1], e) && (joined ==> e != gone))
    requires forall e :: e in after <==> e == here || (e in edits && (joined ==> e != gone))
    ensures Exactly(text, node, settings, after)
  {
    hide Expected, Located;
  }

  lemma NewKeyExpected(text: string, node: Node, settings: seq<Setting>, e: Edit)
    requires Located(text, node) && settings != []
    requires FindProperty(node.properties, settings[|settings| - 1].key) == |node.properties|
    ensures var init := settings[..|settings| - 1];
            Expected(text, node, settings, e) <==>
              e == Insertion(text, node, settings)
              || (Expected(text, node, init, e) && (NewOnes(node, init) != [] ==> e != Insertion(text, node, init)))
  {
    NewKeyValues(text, node, settings, e);
    NewInserted(text, node, settings);
    var init := settings[..|settings| - 1];
    if ValueExpected(text, node, init, e) { ValueNotInserted(text, node, init, e); }
    hide Located, FindProperty, NewOnes, Inserted, ValueExpected, InsertionPoint;
  }

  lemma OthersStay(text: string, edits: seq<Edit>, i: nat, e: Edit)
    requires Separate(text, edits) && i < |edits|
    ensures forall x :: x in edits[i := e] <==> x == e || (x in edits && x != edits[i])
  {
    var now := edits[i := e];
    forall x ensures x in now <==> x == e || (x in edits && x != edits[i]) {
      if x in now {
        var k :| 0 <= k < |now| && now[k] == x;
        if k != i { assert Apart(edits[k], edits[i]); }
      }
      if x in edits && x != edits[i] {
        var k :| 0 <= k < |edits| && edits[k] == x;
        assert now[k] == x;
      }
      assert now[i] == e;
    }
  }

  lemma {:induction false} SetsExactly(text: string, node: Node, settings: seq<Setting>)
    requires Located(text, node) && DifferentKeys(settings)
    ensures Exactly(text, node, settings, AfterSets(text, node, settings))
    decreases |settings|
  {
    if settings == [] {
      NoneExpected(text, node);
    } else {
      var init := settings[..|settings| - 1];
      KeysBefore(settings);
      SetsExactly(text, node, init);
      SetsApply(text, node, init);
      hide AfterSet, Located, Exactly, Separate;
      if FindProperty(node.properties, settings[|settings| - 1].key) < |node.properties| {
        OldKeyExactly(text, node, settings, AfterSets(text, node, init));
      } else {
        NewKeyExactly(text, node, settings, AfterSets(text, node, init));
      }
    }
  }

  lemma NoneExpected(text: string, node: Node)
    requires Located(text, node)
    ensures Exactly(text, node, [], [])
  {
    forall e, i | 0 <= i < |node.properties| ensures !ChangedTo(text, node, [], i, e) {
    }
  }

  /** The same edits, of the values of the first k properties, from the last. */
  function ValueEdits(text: string, node: Node, settings: seq<Setting>, k: nat): seq<Edit>
    requires Located(text, node) && k <= |node.properties|
    decreases k
  {
    if k == 0 then []
    else
      (if Changed(text, node, settings, k - 1) then [ValueEdit(text, node, settings, k - 1)] else [])
      + ValueEdits(text, node, settings, k - 1)
  }

  function AllEdits(text: string, node: Node, settings: seq<Setting>): seq<Edit>
    requires Located(text, node)
  {
    (if NewOnes(node, settings) != [] then [Insertion(text, node, settings)] else [])
    + ValueEdits(text, node, settings, |node.properties|)
  }

  ghost predicate SomeChanged(text: string, node: Node, settings: seq<Setting>, k: nat, e: Edit)
    requires Located(text, node) && k <= |node.properties|
  {
    exists i :: 0 <= i < k && ChangedTo(text, node, settings, i, e)
  }

  lemma SomeChangedStep(text: string, node: Node, settings: seq<Setting>, k: nat, e: Edit)
    requires Located(text, node) && 0 < k <= |node.properties|
    ensures SomeChanged(text, node, settings, k, e) <==>
            ChangedTo(text, node, settings, k - 1, e) || SomeChanged(text, node, settings, k - 1, e)
  {
    hide Located, ChangedTo;
    if SomeChanged(text, node, settings, k - 1, e) {
      var i :| 0 <= i < k - 1 && ChangedTo(text, node, settings, i, e);
    }
  }

  lemma ValueEditsStep(text: string, node: Node, settings: seq<Setting>, k: nat, e: Edit)
    requires Located(text, node) && 0 < k <= |node.properties|
    ensures e in ValueEdits(text, node, settings, k) <==>
            ChangedTo(text, node, settings, k - 1, e) || e in ValueEdits(text, node, settings, k - 1)
  {
    hide Located, Changed, ValueEdit;
  }

  lemma NoneChanged(text: string, node: Node, settings: seq<Setting>, e: Edit)
    requires Located(text, node)
    ensures e !in ValueEdits(text, node, settings, 0) && !SomeChanged(text, node, settings, 0, e)
  {
  }

  lemma {:induction false} ValueEditsHave(text: string, node: Node, settings: seq<Setting>, k: nat, e: Edit)
    requires Located(text, node) && k <= |node.properties|
    ensures e in ValueEdits(text, node, settings, k) <==> SomeChanged(text, node, settings, k, e)
    decreases k
  {
    hide *;
    if k == 0 {
      NoneChanged(text, node, settings, e);
    } else {
      ValueEditsHave(text, node, settings, k - 1, e);
      ValueEditsStep(text, node, settings, k, e);
      SomeChangedStep(text, node, settings, k, e);
    }
  }

  lemma AllEditsHave(text: string, node: Node, settings: seq<Setting>, e: Edit)
    requires Located(text, node)
    ensures e in AllEdits(text, node, settings) <==> Expected(text, node, settings, e)
  {
    ValueEditsHave(text, node, settings, |node.properties|, e);
    hide Located, ChangedTo, ValueEdits, NewOnes, Insertion;
  }

  /** From one place to another, each edit ending where the next may start; edits from the last. */
  predicate Chain(edits: seq<Edit>, from: nat, upto: nat) {
    if edits == [] then from <= upto
    else
      var low := edits[|edits| - 1];
      from <= low.start <= low.end && Chain(edits[..|edits| - 1], low.end, upto)
  }

  lemma {:induction false} ChainHigh(e: Edit, edits: seq<Edit>, from: nat, upto: nat)
    requires Chain(edits, from, e.start) && e.start <= e.end <= upto
    ensures Chain([e] + edits, from, upto)
    decreases |edits|
  {
    if edits == [] {
      assert [e] + edits == [e] && [e][..0] == [];
    } else {
      var n := |edits| - 1;
      assert ([e] + edits)[..n + 1] == [e] + edits[..n];
      ChainHigh(e, edits[..n], edits[n].end, upto);
    }
  }

  lemma {:induction false} ChainFurther(edits: seq<Edit>, from: nat, upto: nat, more: nat)
    requires Chain(edits, from, upto) && upto <= more
    ensures Chain(edits, from, more)
    decreases |edits|
  {
    if edits != [] {
      ChainFurther(edits[..|edits| - 1], edits[|edits| - 1].end, upto, more);
    }
  }

  lemma NoChain(text: string, node: Node, settings: seq<Setting>)
    requires Located(text, node)
    ensures Chain(ValueEdits(text, node, settings, 0), 0, Reach(node, 0))
  {
  }

  lemma ChainStep(text: string, node: Node, settings: seq<Setting>, k: nat)
    requires Located(text, node) && 0 < k <= |node.properties|
    requires Chain(ValueEdits(text, node, settings, k - 1), 0, Reach(node, k - 1))
    ensures Chain(ValueEdits(text, node, settings, k), 0, Reach(node, k))
  {
    var p, e := node.properties[k - 1], ValueEdit(text, node, settings, k - 1);
    var rest := ValueEdits(text, node, settings, k - 1);
    Placed(text, node, k);
    assert ValueEdits(text, node, settings, k)
           == if Changed(text, node, settings, k - 1) then [e] + rest else [] + rest;
    assert [] + rest == rest;
    hide Located, Changed, ValueNow, Chain, Reach, ValueEdits;
    ChainFurther(rest, 0, Reach(node, k - 1), p.valueStart);
    ChainFurther(rest, 0, p.valueStart, Reach(node, k));
    ChainHigh(e, rest, 0, Reach(node, k));
  }

  lemma {:induction false} ValuesChain(text: string, node: Node, settings: seq<Setting>, k: nat)
    requires Located(text, node) && k <= |node.properties|
    ensures Chain(ValueEdits(text, node, settings, k), 0, Reach(node, k))
    decreases k
  {
    hide *;
    if k == 0 {
      NoChain(text, node, settings);
    } else {
      ValuesChain(text, node, settings, k - 1);
      ChainStep(text, node, settings, k);
    }
  }

  /** The last edit of a chain splits what is substituted. */
  lemma {:induction false} SubstitutedHigh(text: string, e: Edit, edits: seq<Edit>, from: nat)
    requires Chain(edits, from, e.start) && e.start <= e.end <= |text| && from <= e.start
    ensures Substituted(text, [e] + edits, from) == Substituted(text[..e.start], edits, from) + e.text + text[e.end..]
    decreases |edits|
  {
    var all := [e] + edits;
    if edits == [] {
      assert all == [e] && [e][..0] == [];
      assert Substituted(text, [], e.end) == text[e.end..] && text[..e.start][from..] == text[from..e.start];
    } else {
      var n := |edits| - 1;
      var low := edits[n];
      assert all[..n + 1] == [e] + edits[..n] && all[n + 1] == low;
      ChainEnds(edits[..n], low.end, e.start);
      SubstitutedHigh(text, e, edits[..n], low.end);
      var before, high := text[from..low.start] + low.text, Substituted(text[..e.start], edits[..n], low.end);
      SliceWithin(text, e.start, from, low.start);
      hide Substituted;
      Regrouped(before, high, e.text, text[e.end..]);
    }
  }

  lemma {:induction false} ChainEnds(edits: seq<Edit>, from: nat, upto: nat)
    requires Chain(edits, from, upto)
    ensures from <= upto
    decreases |edits|
  {
    if edits != [] {
      ChainEnds(edits[..|edits| - 1], edits[|edits| - 1].end, upto);
    }
  }

  lemma SliceWithin(text: string, upto: nat, from: nat, to: nat)
    requires from <= to <= upto <= |text|
    ensures text[..upto][from..to] == text[from..to]
  {
  }

  lemma Regrouped(a: string, b: string, c: string, d: string)
    ensures a + (b + c + d) == (a + b) + c + d
  {
  }

  /** What follows the properties is authored text. */
  lemma WithValuesFurther(text: string, node: Node, settings: seq<Setting>, k: nat, upto: nat, more: nat)
    requires Located(text, node) && k <= |node.properties| && Reach(node, k) <= upto <= more <= |text|
    ensures WithValues(text, node, settings, k, more) == WithValues(text, node, settings, k, upto) + text[upto..more]
  {
    if k == 0 {
      assert text[..more] == text[..upto] + text[upto..more];
    } else {
      var end := node.properties[k - 1].valueEnd;
      assert text[end..more] == text[end..upto] + text[upto..more];
    }
  }

  lemma {:induction false} ValuesSubstituted(text: string, node: Node, settings: seq<Setting>, k: nat, upto: nat)
    requires Located(text, node) && k <= |node.properties| && Reach(node, k) <= upto <= |text|
    ensures Substituted(text[..upto], ValueEdits(text, node, settings, k), 0)
            == WithValues(text, node, settings, k, upto)
    decreases k
  {
    hide *;
    if k == 0 {
      NoValues(text, node, settings, upto);
    } else {
      Placed(text, node, k);
      var start := node.properties[k - 1].valueStart;
      ValuesSubstituted(text, node, settings, k - 1, start);
      ValuesSubstituted(text, node, settings, k - 1, upto);
      ValuesChain(text, node, settings, k - 1);
      ChainFurther(ValueEdits(text, node, settings, k - 1), 0, Reach(node, k - 1), start);
      WithValuesFurther(text, node, settings, k - 1, start, upto);
      ValuesStep(text, node, settings, k, upto);
    }
  }

  lemma NoValues(text: string, node: Node, settings: seq<Setting>, upto: nat)
    requires Located(text, node) && upto <= |text|
    ensures Substituted(text[..upto], ValueEdits(text, node, settings, 0), 0)
            == WithValues(text, node, settings, 0, upto)
  {
    assert text[..upto][0..] == text[..upto];
  }

  lemma Placed(text: string, node: Node, k: nat)
    requires Located(text, node) && 0 < k <= |node.properties|
    ensures var p := node.properties[k - 1];
            Reach(node, k - 1) <= p.valueStart <= p.valueEnd <= Reach(node, k) <= |text|
  {
  }

  lemma ValuesStep(text: string, node: Node, settings: seq<Setting>, k: nat, upto: nat)
    requires Located(text, node) && 0 < k <= |node.properties| && Reach(node, k) <= upto <= |text|
    requires Reach(node, k - 1) <= node.properties[k - 1].valueStart <= node.properties[k - 1].valueEnd <= upto
    requires var start, rest := node.properties[k - 1].valueStart, ValueEdits(text, node, settings, k - 1);
             var before := WithValues(text, node, settings, k - 1, start);
             && Chain(rest, 0, start) && Substituted(text[..start], rest, 0) == before
             && Substituted(text[..upto], rest, 0) == before + text[start..upto]
    ensures Substituted(text[..upto], ValueEdits(text, node, settings, k), 0)
            == WithValues(text, node, settings, k, upto)
  {
    var p, rest := node.properties[k - 1], ValueEdits(text, node, settings, k - 1);
    var before := WithValues(text, node, settings, k - 1, p.valueStart);
    assert WithValues(text, node, settings, k, upto)
           == before + ValueNow(text, node, settings, k - 1) + text[p.valueEnd..upto];
    hide Substituted, WithValues, Located, ValueNow, Chain;
    if Changed(text, node, settings, k - 1) {
      assert ValueEdits(text, node, settings, k) == [ValueEdit(text, node, settings, k - 1)] + rest;
      ValueWithin(text, ValueEdit(text, node, settings, k - 1), rest, upto);
    } else {
      assert ValueEdits(text, node, settings, k) == [] + rest == rest;
      Unchanged(text, before, p.valueStart, p.valueEnd, upto);
    }
  }

  lemma Unchanged(text: string, before: string, start: nat, end: nat, upto: nat)
    requires start <= end <= upto <= |text|
    ensures before + text[start..upto] == before + text[start..end] + text[end..upto]
  {
    assert text[start..upto] == text[start..end] + text[end..upto];
    Associates(before, text[start..end], text[end..upto]);
  }

  lemma ValueWithin(text: string, e: Edit, edits: seq<Edit>, upto: nat)
    requires Chain(edits, 0, e.start) && e.start <= e.end <= upto <= |text|
    ensures Substituted(text[..upto], [e] + edits, 0)
            == Substituted(text[..e.start], edits, 0) + e.text + text[e.end..upto]
  {
    ValueSubstituted(text[..upto], e, edits);
    assert text[..upto][..e.start] == text[..e.start] && text[..upto][e.end..] == text[e.end..upto];
  }

  lemma ValueSubstituted(text: string, e: Edit, edits: seq<Edit>)
    requires Chain(edits, 0, e.start) && e.start <= e.end <= |text|
    ensures Substituted(text, [e] + edits, 0) == Substituted(text[..e.start], edits, 0) + e.text + text[e.end..]
  {
    SubstitutedHigh(text, e, edits, 0);
  }

  lemma AllSubstituted(text: string, node: Node, settings: seq<Setting>)
    requires Located(text, node)
    ensures var at, n := InsertionPoint(node), |node.properties|;
            && Reach(node, n) <= at <= |text|
            && Substituted(text, AllEdits(text, node, settings), 0)
               == WithValues(text, node, settings, n, at) + Inserted(text, node, settings) + text[at..]
            && Chain(AllEdits(text, node, settings), 0, |text|)
  {
    var at, n := InsertionPoint(node), |node.properties|;
    var rest, before := ValueEdits(text, node, settings, n), WithValues(text, node, settings, n, at);
    ValuesChain(text, node, settings, n);
    ChainFurther(rest, 0, Reach(node, n), at);
    ChainFurther(rest, 0, at, |text|);
    ValuesSubstituted(text, node, settings, n, at);
    ValuesSubstituted(text, node, settings, n, |text|);
    WithValuesFurther(text, node, settings, n, at, |text|);
    Ends(text, before, at);
    hide Substituted, WithValues, ValueEdits, Located, Chain, Inserted, InsertionPoint, Reach;
    if NewOnes(node, settings) != [] {
      ValueSubstituted(text, Insertion(text, node, settings), rest);
      ChainHigh(Insertion(text, node, settings), rest, 0, |text|);
    } else {
      assert AllEdits(text, node, settings) == [] + rest == rest;
      assert Inserted(text, node, settings) == "" by { NoneInserted(text, node, settings); }
    }
  }

  lemma NoneInserted(text: string, node: Node, settings: seq<Setting>)
    requires Located(text, node) && NewOnes(node, settings) == []
    ensures Inserted(text, node, settings) == ""
  {
  }

  lemma Ends(text: string, before: string, at: nat)
    requires at <= |text|
    ensures text[..|text|] == text && before + text[at..|text|] == before + "" + text[at..]
  {
  }

  predicate Strict(edits: seq<Edit>) {
    forall i, j :: 0 <= i < j < |edits| ==> edits[i].start > edits[j].start
  }

  /** Strictly falling lists of the same edits are the same list. */
  lemma {:induction false} SameFalling(a: seq<Edit>, b: seq<Edit>)
    requires Strict(a) && Strict(b) && forall e :: e in a <==> e in b
    ensures a == b
  {
    BothEmpty(a, b);
    if a != [] {
      assert a[0] in b && b[0] in a;
      var i, j :| 0 <= i < |a| && a[i] == b[0] && 0 <= j < |b| && b[j] == a[0];
      assert a[0] == b[0];
      SameTails(a, b);
      SameFalling(a[1..], b[1..]);
    }
  }

  lemma BothEmpty(a: seq<Edit>, b: seq<Edit>)
    requires forall e :: e in a <==> e in b
    ensures a == [] <==> b == []
  {
    if a != [] { assert a[0] in b; }
    if b != [] { assert b[0] in a; }
  }

  lemma SameTails(a: seq<Edit>, b: seq<Edit>)
    requires a != [] && b != [] && a[0] == b[0] && Strict(a) && Strict(b) && forall e :: e in a <==> e in b
    ensures Strict(a[1..]) && Strict(b[1..]) && forall e :: e in a[1..] <==> e in b[1..]
  {
    forall e ensures e in a[1..] <==> e in a && e != a[0] { InTail(a, e); }
    forall e ensures e in b[1..] <==> e in b && e != b[0] { InTail(b, e); }
  }

  lemma InTail(a: seq<Edit>, e: Edit)
    requires a != [] && Strict(a)
    ensures e in a[1..] <==> e in a && e != a[0]
  {
    if e in a && e != a[0] {
      var k :| 0 <= k < |a| && a[k] == e;
      assert a[1..][k - 1] == e;
    }
  }

  lemma StrictMore(e: Edit, rest: seq<Edit>)
    requires Strict(rest) && forall x <- rest :: x.start < e.start
    ensures Strict([e] + rest)
  {
    var all := [e] + rest;
    assert forall j :: 1 <= j < |all| ==> all[j] == rest[j - 1] && rest[j - 1] in rest;
  }

  /** Strictly falling, and all below. */
  predicate StrictBelow(edits: seq<Edit>, upto: nat) {
    Strict(edits) && forall e <- edits :: e.start < upto
  }

  lemma StrictStep(text: string, node: Node, settings: seq<Setting>, k: nat)
    requires Located(text, node) && 0 < k <= |node.properties|
    requires StrictBelow(ValueEdits(text, node, settings, k - 1), Reach(node, k - 1))
    ensures StrictBelow(ValueEdits(text, node, settings, k), Reach(node, k))
  {
    var rest, e := ValueEdits(text, node, settings, k - 1), ValueEdit(text, node, settings, k - 1);
    Placed(text, node, k);
    assert node.properties[k - 1].valueStart < Reach(node, k);
    assert ValueEdits(text, node, settings, k)
           == if Changed(text, node, settings, k - 1) then [e] + rest else [] + rest;
    assert [] + rest == rest;
    hide Located, Changed, ValueNow, Strict, Reach, ValueEdits;
    StrictMore(e, rest);
  }

  lemma NoValueEdits(text: string, node: Node, settings: seq<Setting>)
    requires Located(text, node)
    ensures StrictBelow(ValueEdits(text, node, settings, 0), Reach(node, 0))
  {
  }

  lemma {:induction false} ValuesStrict(text: string, node: Node, settings: seq<Setting>, k: nat)
    requires Located(text, node) && k <= |node.properties|
    ensures StrictBelow(ValueEdits(text, node, settings, k), Reach(node, k))
    decreases k
  {
    hide *;
    if k == 0 {
      NoValueEdits(text, node, settings);
    } else {
      ValuesStrict(text, node, settings, k - 1);
      StrictStep(text, node, settings, k);
    }
  }

  lemma AllStrict(text: string, node: Node, settings: seq<Setting>)
    requires Located(text, node)
    ensures Strict(AllEdits(text, node, settings))
  {
    var n := |node.properties|;
    var rest := ValueEdits(text, node, settings, n);
    ValuesStrict(text, node, settings, n);
    assert Reach(node, n) <= InsertionPoint(node);
    assert [] + rest == rest;
    hide Located, ValueEdits, Inserted, NewOnes, Strict, InsertionPoint, Reach;
    StrictMore(Insertion(text, node, settings), rest);
  }

  lemma SortedStrict(text: string, edits: seq<Edit>)
    requires Separate(text, edits)
    ensures Strict(Sorted(edits)) && forall e :: e in Sorted(edits) <==> e in edits
  {
    SortedSeparate(text, edits);
    SortedFalls(edits);
    var sorted := Sorted(edits);
    forall e ensures e in sorted <==> e in edits {
      assert e in sorted <==> e in multiset(sorted);
      assert e in edits <==> e in multiset(edits);
    }
    forall i, j | 0 <= i < j < |sorted| ensures sorted[i].start > sorted[j].start {
      assert Apart(sorted[i], sorted[j]);
    }
  }

  /** Any settings of different keys of one object, old and new mixed: the applied text is the authored text
      with the value of each set property replaced by its own JSON, the entries of the new ones at the
      insertion point, and every other character as it was. */
  lemma SettingsApplied(text: string, node: Node, settings: seq<Setting>)
    requires Located(text, node) && DifferentKeys(settings)
    ensures var at, n := InsertionPoint(node), |node.properties|;
            && Reach(node, n) <= at <= |text|
            && Separate(text, AfterSets(text, node, settings)) && !SameStart(AfterSets(text, node, settings))
            && Substituted(text, Sorted(AfterSets(text, node, settings)), 0)
               == WithValues(text, node, settings, n, at) + Inserted(text, node, settings) + text[at..]
  {
    var edits, all := AfterSets(text, node, settings), AllEdits(text, node, settings);
    SetsApply(text, node, settings);
    SetsExactly(text, node, settings);
    SortedStrict(text, edits);
    AllStrict(text, node, settings);
    AllSubstituted(text, node, settings);
    forall e ensures e in edits <==> Expected(text, node, settings, e) {
      assert Exactly(text, node, settings, edits);
    }
    hide *;
    forall e ensures e in Sorted(edits) <==> e in all {
      AllEditsHave(text, node, settings, e);
    }
    SameFalling(Sorted(edits), all);
  }

  /** The value after the settings is that of the setting with the property's name, if it is the first
      property so named. */
  lemma {:induction false} ValueIs(text: string, node: Node, settings: seq<Setting>, k: nat)
    requires Located(text, node) && DifferentKeys(settings) && k < |settings|
    requires FindProperty(node.properties, settings[k].key) < |node.properties|
    ensures ValueNow(text, node, settings, FindProperty(node.properties, settings[k].key)) == settings[k].json
    decreases |settings|
  {
    var n := |settings| - 1;
    hide Located;
    if k < n {
      ValueIs(text, node, settings[..n], k);
      assert settings[k].key != settings[n].key;
    }
  }

  /** Setting one existing key. */
  lemma ValueReplaced(text: string, node: Node, s: Setting)
    requires Located(text, node) && FindProperty(node.properties, s.key) < |node.properties|
    ensures var p := node.properties[FindProperty(node.properties, s.key)];
            && p.valueStart <= p.valueEnd <= |text|
            && Substituted(text, Sorted(AfterSets(text, node, [s])), 0)
               == text[..p.valueStart] + s.json + text[p.valueEnd..]
  {
    var p := node.properties[FindProperty(node.properties, s.key)];
    OneSetting(text, node, s);
    hide *;
    if text[p.valueStart..p.valueEnd] == s.json {
      assert text == text[..p.valueStart] + text[p.valueStart..p.valueEnd] + text[p.valueEnd..];
    }
  }

  /** What setting one existing key puts on record, and what substituting that gives. */
  lemma OneSetting(text: string, node: Node, s: Setting)
    requires Located(text, node) && FindProperty(node.properties, s.key) < |node.properties|
    ensures var p := node.properties[FindProperty(node.properties, s.key)];
            && p.valueStart <= p.valueEnd <= |text|
            && Substituted(text, Sorted(AfterSets(text, node, [s])), 0)
               == if text[p.valueStart..p.valueEnd] == s.json then text
                  else text[..p.valueStart] + s.json + text[p.valueEnd..]
  {
    var p := node.properties[FindProperty(node.properties, s.key)];
    assert [s][..0] == [] && AfterSets(text, node, []) == [];
    hide Located, FindProperty;
    var edits := AfterSets(text, node, [s]);
    hide AfterSets;
    assert edits == if text[p.valueStart..p.valueEnd] == s.json then [] else [Edit(p.valueStart, p.valueEnd, s.json)];
    OneEdit(text, Edit(p.valueStart, p.valueEnd, s.json));
  }

  lemma OneEdit(text: string, e: Edit)
    requires e.start <= e.end <= |text|
    ensures Sorted([]) == [] && Substituted(text, [], 0) == text
    ensures Sorted([e]) == [e] && Substituted(text, [e], 0) == text[..e.start] + e.text + text[e.end..]
  {
    assert [e][..0] == [];
  }

  /** The indentation of a new entry: all blanks at the start of the line its model is on, up to the model. */
  lemma IndentationExactly(text: string, offset: nat)
    requires offset <= |text|
    ensures var start, indent := LineStart(text, offset), Indentation(text, offset);
            && (start == 0 || text[start - 1] == '\n') && '\n' !in text[start..offset]
            && start + |indent| <= offset && text[start..start + |indent|] == indent
            && (forall c <- indent :: c == ' ' || c == '\t')
            && (start + |indent| < offset ==> text[start + |indent|] != ' ' && text[start + |indent|] != '\t')
  {
    LineStartExactly(text, offset);
    BlanksExactly(text[LineStart(text, offset)..offset]);
  }

  /** All the blanks, up to the offset, that begin its line. */
  ghost predicate Indents(text: string, offset: nat, indent: string)
    requires offset <= |text|
  {
    exists start :: 0 <= start <= offset && LineAt(text, start, offset) && start + |indent| <= offset
                    && text[start..start + |indent|] == indent && (forall c <- indent :: c == ' ' || c == '\t')
                    && (start + |indent| < offset ==> text[start + |indent|] != ' ' && text[start + |indent|] != '\t')
  }

  predicate LineAt(text: string, start: nat, offset: nat)
    requires start <= offset <= |text|
  {
    (start == 0 || text[start - 1] == '\n') && '\n' !in text[start..offset]
  }

  ghost predicate OnOwnLine(text: string, offset: nat, deeper: string, entry: string, keyJson: string, json: string)
    requires offset <= |text|
  {
    exists indent :: Indents(text, offset, indent)
                     && entry == "\n" + (indent + deeper) + keyJson + ": " + json + ","
  }

  /** A new entry is on its own line, indented like the last property, or two blanks deeper than an empty
      object's own line, and reads as key, colon, value and comma. */
  lemma EntryExactly(text: string, node: Node, keyJson: string, json: string)
    requires Located(text, node)
    ensures var n, entry := |node.properties|, NewEntry(text, node, keyJson, json);
            if n == 0 then node.start <= |text| && OnOwnLine(text, node.start, "  ", entry, keyJson, json)
            else node.properties[n - 1].start <= |text|
                 && OnOwnLine(text, node.properties[n - 1].start, "", entry, keyJson, json)
  {
    var n := |node.properties|;
    var at := if n == 0 then node.start else node.properties[n - 1].start;
    assert at <= |text|;
    hide Located;
    IndentationExactly(text, at);
    assert LineAt(text, LineStart(text, at), at);
    var indent := Indentation(text, at);
    assert Indents(text, at, indent) && indent + "" == indent;
  }

  lemma {:induction false} LineStartExactly(text: string, offset: nat)
    requires offset <= |text|
    ensures var start := LineStart(text, offset);
            (start == 0 || text[start - 1] == '\n') && '\n' !in text[start..offset]
    decreases offset
  {
    if offset > 0 && text[offset - 1] != '\n' {
      LineStartExactly(text, offset - 1);
      var start := LineStart(text, offset);
      assert text[start..offset] == text[start..offset - 1] + [text[offset - 1]];
    }
  }

  lemma {:induction false} BlanksExactly(s: string)
    ensures var blanks := Blanks(s);
            && |blanks| <= |s| && s[..|blanks|] == blanks && (forall c <- blanks :: c == ' ' || c == '\t')
            && (|blanks| < |s| ==> s[|blanks|] != ' ' && s[|blanks|] != '\t')
  {
    if s != "" && (s[0] == ' ' || s[0] == '\t') {
      BlanksExactly(s[1..]);
      assert s[..|Blanks(s)|] == [s[0]] + s[1..][..|Blanks(s[1..])|];
    }
  }

  // ---------- An edit inside a value that is itself replaced ----------

  predicate Nested(text: string, outer: Edit, inner: Edit) {
    outer.start < inner.start <= inner.end <= outer.end <= |text|
  }

  lemma SortedPair(late: Edit, early: Edit)
    requires late.start > early.start
    ensures Sorted([late, early]) == Sorted([early, late]) == [late, early]
  {
    assert [late, early][..1] == [late] && [early, late][..1] == [early];
    assert [late][..0] == [] && [early][..0] == [];
    assert Sorted([late]) == [late] && Sorted([early]) == [early];
    assert [late, early][1..] == [early] && Insert(early, [late]) == [late] + Insert(early, []);
  }

  lemma NestedSpliced(text: string, outer: Edit, inner: Edit)
    requires Nested(text, outer, inner)
    ensures var next := Splice(text, inner);
            Splice(next, outer) == text[..outer.start] + outer.text + next[Min(outer.end, |next|)..]
  {
    var next := Splice(text, inner);
    assert outer.start <= |next| && next[..outer.start] == text[..outer.start];
  }

  /** What follows the outer range after the inner edit is what followed it before exactly then. */
  lemma TailExactly(text: string, outer: Edit, inner: Edit)
    requires Nested(text, outer, inner)
    ensures var next, gone := Splice(text, inner), inner.end - inner.start;
            next[Min(outer.end, |next|)..] == text[outer.end..] <==>
              |inner.text| == gone || (outer.end == |text| && |inner.text| < gone)
  {
    var next, gone := Splice(text, inner), inner.end - inner.start;
    assert |next| == |text| + |inner.text| - gone;
    if |inner.text| == gone {
      forall i | outer.end <= i < |text| ensures next[i] == text[i] {}
      assert next[outer.end..] == text[outer.end..];
    } else {
      assert |text[outer.end..]| == |text| - outer.end
             && |next[Min(outer.end, |next|)..]| == |next| - Min(outer.end, |next|);
    }
  }

  /** An edit inside a value that another edit replaces passes the test for equal starts. The outer text
      comes out in its place, with everything around it as it was, exactly when the inner edit keeps the
      length, or shortens the text and the outer range reaches to its end. */
  lemma NestedEditsExactly(text: string, outer: Edit, inner: Edit, edits: seq<Edit>)
    requires Nested(text, outer, inner) && (edits == [outer, inner] || edits == [inner, outer])
    ensures !SameStart(edits)
    ensures SpliceAll(text, Sorted(edits)) == text[..outer.start] + outer.text + text[outer.end..] <==>
            |inner.text| == inner.end - inner.start || (outer.end == |text| && |inner.text| < inner.end - inner.start)
  {
    SortedPair(inner, outer);
    SplicesPair(text, inner, outer);
    NestedSpliced(text, outer, inner);
    TailExactly(text, outer, inner);
    var before, tail := text[..outer.start] + outer.text, Splice(text, inner)[Min(outer.end, |Splice(text, inner)|)..];
    hide Splice, Sorted, SpliceAll;
    SameTail(before, tail, text[outer.end..]);
  }

  lemma SplicesPair(text: string, first: Edit, second: Edit)
    ensures SpliceAll(text, [first, second]) == Splice(Splice(text, first), second)
  {
    assert [first, second][..1] == [first] && [first][..0] == [];
    assert SpliceAll(text, [first]) == Splice(text, first);
    hide Splice;
  }

  lemma SameTail(before: string, a: string, b: string)
    ensures before + a == before + b <==> a == b
  {
    assert (before + a)[|before|..] == a && (before + b)[|before|..] == b;
  }

  /** For instance, the tail of a longer inner text survives the outer replacement. */
  lemma NestedEditsGarble()
    ensures var inner, outer := Edit(1, 2, "LONG"), Edit(0, 3, "X");
            && !SameStart([inner, outer]) && !Apart(inner, outer)
            && SpliceAll("{a}", Sorted([outer, inner])) == "XNG}"
  {
    var inner, outer := Edit(1, 2, "LONG"), Edit(0, 3, "X");
    SortedPair(inner, outer);
    SplicesPair("{a}", inner, outer);
    assert Splice("{a}", inner) == "{LONG}";
  }
}
