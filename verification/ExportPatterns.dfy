/** Wildcard exports: matching files against targets, substituting captures, and choosing a pattern key
    (PATTERN_KEY_COMPARE and PACKAGE_IMPORTS_EXPORTS_RESOLVE in the Node.js ESM documentation). */
module ExportPatterns {
  import opened Wrappers
  import T = ExportTargets

  /** Every `*` replaced by the same text. */
  function Fill(target: string, c: string): string {
    if target == "" then "" else (if target[0] == '*' then c else [target[0]]) + Fill(target[1..], c)
  }

  function Stars(target: string): nat {
    if target == "" then 0 else (if target[0] == '*' then 1 else 0) + Stars(target[1..])
  }

  // ---------- Matching ----------

  /** The pieces of the regular expression built for a target: escaped text, `(?<subpath>.+)`, `\k<subpath>`. */
  datatype Piece = Literal(text: string) | Capture | Again

  function Split(s: string): (parts: seq<string>)
    ensures |parts| == Stars(s) + 1
  {
    if s == "" then [""]
    else
      var rest := Split(s[1..]);
      if s[0] == '*' then [""] + rest else [[s[0]] + rest[0]] + rest[1..]
  }

  function Matcher(target: string): seq<Piece> {
    [Literal(Split(target)[0])] + Rest(Split(target)[1..], true)
  }

  function Rest(parts: seq<string>, first: bool): seq<Piece> {
    if parts == [] then []
    else [if first then Capture else Again, Literal(parts[0])] + Rest(parts[1..], false)
  }

  /** The text a match spells when the group captures c. */
  function Spell(pieces: seq<Piece>, c: string): string {
    if pieces == [] then ""
    else (if pieces[0].Literal? then pieces[0].text else c) + Spell(pieces[1..], c)
  }

  /** What `.` matches: anything but the four line terminators. */
  const LINE_ENDS: string := "\n\r\U{2028}\U{2029}"

  predicate OneLine(c: string) {
    '\n' !in c && '\r' !in c && '\U{2028}' !in c && '\U{2029}' !in c
  }

  predicate Accepts(pieces: seq<Piece>, file: string, c: string) {
    c != "" && OneLine(c) && Spell(pieces, c) == file
  }

  /** The engine tries the longest capture first and gives characters back one by one. */
  function Backtrack(pieces: seq<Piece>, file: string, start: nat, n: nat): Option<string> {
    if n == 0 then None
    else if start + n <= |file| && Accepts(pieces, file, file[start..start + n]) then Some(file[start..start + n])
    else Backtrack(pieces, file, start, n - 1)
  }

  function Exec(target: string, file: string): Option<string> {
    Backtrack(Matcher(target), file, |Split(target)[0]|, |file|)
  }

  lemma RestStep(parts: seq<string>, c: string, first: bool)
    requires parts != []
    ensures Spell(Rest(parts, first), c) == c + (parts[0] + Spell(Rest(parts[1..], false), c))
  {
    var r := Rest(parts, first);
    assert r[1..][1..] == Rest(parts[1..], false);
  }

  lemma {:induction false} RestSpells(s: string, c: string, first: bool)
    ensures Split(s)[0] + Spell(Rest(Split(s)[1..], first), c) == Fill(s, c)
  {
    if s != "" {
      var rest := Split(s[1..]);
      if s[0] == '*' {
        RestSpells(s[1..], c, false);
        assert Split(s)[1..] == rest && Split(s)[0] == "";
        RestStep(rest, c, first);
      } else {
        RestSpells(s[1..], c, first);
        assert Split(s)[1..] == rest[1..];
      }
    }
  }

  lemma MatcherSpells(target: string, c: string)
    ensures Spell(Matcher(target), c) == Fill(target, c)
  {
    RestSpells(target, c, true);
    assert Matcher(target)[1..] == Rest(Split(target)[1..], true);
  }

  lemma {:induction false} FillLength(target: string, c: string)
    ensures |Fill(target, c)| == |target| - Stars(target) + Stars(target) * |c|
  {
    if target != "" {
      FillLength(target[1..], c);
    }
  }

  /** The first star's text starts right after the first part. */
  lemma {:induction false} CaptureAt(target: string, c: string)
    requires '*' in target
    ensures var n := |Split(target)[0]|; n + |c| <= |Fill(target, c)| && Fill(target, c)[n..n + |c|] == c
  {
    if target[0] != '*' {
      CaptureAt(target[1..], c);
      var n, f := |Split(target[1..])[0]|, Fill(target[1..], c);
      assert Fill(target, c)[n + 1..n + 1 + |c|] == f[n..n + |c|];
    }
  }

  lemma {:induction false} HasStars(target: string)
    requires '*' in target
    ensures Stars(target) >= 1
  {
    if target[0] != '*' {
      HasStars(target[1..]);
    }
  }

  lemma Less(k: nat, a: nat, b: nat)
    requires k >= 1 && a < b
    ensures k * a < k * b
  {
    assert k * b == k * a + k * (b - a);
  }

  /** A file comes from at most one capture, however many stars the target has. */
  lemma CaptureUnique(target: string, c: string, e: string)
    requires '*' in target && Fill(target, c) == Fill(target, e)
    ensures c == e
  {
    HasStars(target);
    FillLength(target, c);
    FillLength(target, e);
    if |c| < |e| { Less(Stars(target), |c|, |e|); }
    if |e| < |c| { Less(Stars(target), |e|, |c|); }
    CaptureAt(target, c);
    CaptureAt(target, e);
  }

  lemma {:induction false} BacktrackFinds(pieces: seq<Piece>, file: string, start: nat, n: nat, c: string)
    requires 1 <= |c| <= n && start + |c| <= |file| && file[start..start + |c|] == c && Accepts(pieces, file, c)
    requires forall e :: Accepts(pieces, file, e) ==> e == c
    ensures Backtrack(pieces, file, start, n) == Some(c)
  {
    hide Accepts;
    if n > |c| {
      if start + n <= |file| {
        var e := file[start..start + n];
        assert |e| == n && e != c;
      }
      BacktrackFinds(pieces, file, start, n - 1, c);
    }
  }

  lemma {:induction false} BacktrackAccepts(pieces: seq<Piece>, file: string, start: nat, n: nat)
    ensures var r := Backtrack(pieces, file, start, n); r.Some? ==> Accepts(pieces, file, r.value)
  {
    if n > 0 {
      BacktrackAccepts(pieces, file, start, n - 1);
    }
  }

  /** Matching is the inverse of filling: c is captured exactly when it is a non-empty single line and
      putting it for every star gives the file. */
  lemma MatchesExactly(target: string, file: string, c: string)
    requires '*' in target
    ensures Exec(target, file) == Some(c) <==> c != "" && OneLine(c) && Fill(target, c) == file
  {
    MatcherSpells(target, c);
    if c != "" && OneLine(c) && Fill(target, c) == file {
      CaptureAt(target, c);
      forall e | Accepts(Matcher(target), file, e) ensures e == c {
        MatcherSpells(target, e);
        CaptureUnique(target, c, e);
      }
      BacktrackFinds(Matcher(target), file, |Split(target)[0]|, |file|, c);
    }
    BacktrackAccepts(Matcher(target), file, |Split(target)[0]|, |file|);
  }

  // ---------- Substituting ----------

  /** A replacement text as JavaScript expands it: `$$`, `$&`, `` $` `` and `$'` are special, and there is
      no group for the others to name. */
  function Expand(c: string, before: string, after: string): string {
    if |c| < 2 then c
    else if c[0] != '$' then [c[0]] + Expand(c[1..], before, after)
    else if c[1] == '$' then "$" + Expand(c[2..], before, after)
    else if c[1] == '&' then "*" + Expand(c[2..], before, after)
    else if c[1] == '`' then before + Expand(c[2..], before, after)
    else if c[1] == '\'' then after + Expand(c[2..], before, after)
    else "$" + Expand(c[1..], before, after)
  }

  function ReplaceAll(value: string, i: nat, c: string): string
    requires i <= |value|
    decreases |value| - i
  {
    if i == |value| then ""
    else (if value[i] == '*' then Expand(c, value[..i], value[i + 1..]) else [value[i]]) + ReplaceAll(value, i + 1, c)
  }

  function FirstStar(value: string): (i: nat)
    ensures i <= |value|
    ensures '*' !in value[..i]
    ensures i < |value| ==> value[i] == '*'
  {
    if value == "" || value[0] == '*' then 0 else 1 + FirstStar(value[1..])
  }

  function ReplaceFirst(value: string, c: string): string {
    var i := FirstStar(value);
    if i == |value| then value else value[..i] + Expand(c, value[..i], value[i + 1..]) + value[i + 1..]
  }

  predicate SpecialAt(c: string, i: nat) {
    i + 1 < |c| && c[i] == '$' && (c[i + 1] == '$' || c[i + 1] == '&' || c[i + 1] == '`' || c[i + 1] == '\'')
  }

  predicate Literally(c: string) {
    forall i :: 0 <= i < |c| ==> !SpecialAt(c, i)
  }

  lemma {:induction false} ExpandsToItself(c: string, before: string, after: string)
    requires Literally(c)
    ensures Expand(c, before, after) == c
  {
    if |c| >= 2 {
      assert !SpecialAt(c, 0);
      forall i | 0 <= i < |c[1..]| ensures !SpecialAt(c[1..], i) { assert !SpecialAt(c, i + 1); }
      ExpandsToItself(c[1..], before, after);
    }
  }

  lemma {:induction false} ExpandsNoLonger(c: string)
    ensures |Expand(c, "", "")| <= |c|
  {
    if |c| >= 2 {
      ExpandsNoLonger(c[1..]);
      ExpandsNoLonger(c[2..]);
    }
  }

  lemma {:induction false} ExpandsShorter(c: string, i: nat)
    requires SpecialAt(c, i)
    ensures |Expand(c, "", "")| < |c|
  {
    ExpandsNoLonger(c[1..]);
    ExpandsNoLonger(c[2..]);
    if i > 0 && !SpecialAt(c, 0) {
      ExpandsShorter(c[1..], i - 1);
    }
  }

  lemma {:induction false} ReplacesStars(value: string, i: nat, c: string)
    requires i <= |value| && Literally(c)
    ensures ReplaceAll(value, i, c) == Fill(value[i..], c)
    decreases |value| - i
  {
    if i < |value| {
      ExpandsToItself(c, value[..i], value[i + 1..]);
      ReplacesStars(value, i + 1, c);
    }
  }

  /** Substitution fills the stars of every value exactly when the capture holds no `$` that JavaScript
      expands. */
  lemma SubstitutesExactly(c: string)
    ensures (forall value :: ReplaceAll(value, 0, c) == Fill(value, c)) <==> Literally(c)
  {
    if Literally(c) {
      forall value ensures ReplaceAll(value, 0, c) == Fill(value, c) {
        ReplacesStars(value, 0, c);
        assert value[0..] == value;
      }
    } else {
      var i :| 0 <= i < |c| && SpecialAt(c, i);
      ExpandsShorter(c, i);
      var star := "*";
      assert star[..0] == "" && star[1..] == "";
      assert ReplaceAll(star, 0, c) == Expand(c, "", "") + ReplaceAll(star, 1, c);
      assert Fill(star, c) == c + Fill("", c);
    }
  }

  /** `substitute`: in every string of the value, conditions untouched. */
  function Substitute(v: T.Target, c: string, valid: string -> bool): T.Target
    decreases v
  {
    match v
    case Str(text, _) => var filled := ReplaceAll(text, 0, c); T.Str(filled, valid(filled))
    case Null => v
    case Arr(entries) => T.Arr(SubstituteEntries(entries, c, valid))
    case Obj(fields) => T.Obj(SubstituteFields(fields, c, valid))
    case Other => v
  }

  function SubstituteEntries(entries: seq<T.Target>, c: string, valid: string -> bool): (r: seq<T.Target>)
    ensures |r| == |entries|
    decreases entries
  {
    if entries == [] then []
    else SubstituteEntries(entries[..|entries| - 1], c, valid) + [Substitute(entries[|entries| - 1], c, valid)]
  }

  function SubstituteFields(fields: seq<T.Field>, c: string, valid: string -> bool): (r: seq<T.Field>)
    ensures |r| == |fields|
    decreases fields
  {
    if fields == [] then []
    else
      var last := fields[|fields| - 1];
      SubstituteFields(fields[..|fields| - 1], c, valid) + [T.Field(last.key, Substitute(last.value, c, valid))]
  }

  lemma {:induction false} EntrySubstituted(entries: seq<T.Target>, i: nat, c: string, valid: string -> bool)
    requires i < |entries|
    ensures SubstituteEntries(entries, c, valid)[i] == Substitute(entries[i], c, valid)
  {
    if i < |entries| - 1 {
      EntrySubstituted(entries[..|entries| - 1], i, c, valid);
    }
  }

  lemma {:induction false} FieldSubstituted(fields: seq<T.Field>, i: nat, c: string, valid: string -> bool)
    requires i < |fields|
    ensures SubstituteFields(fields, c, valid)[i] == T.Field(fields[i].key, Substitute(fields[i].value, c, valid))
  {
    if i < |fields| - 1 {
      FieldSubstituted(fields[..|fields| - 1], i, c, valid);
    }
  }

  function ReplaceOutcome(o: T.Outcome, c: string): T.Outcome {
    if o.Resolved? then T.Resolved(ReplaceAll(o.text, 0, c)) else o
  }

  function FillOutcome(o: T.Outcome, c: string): T.Outcome {
    if o.Resolved? then T.Resolved(Fill(o.text, c)) else o
  }

  /** Substituting the capture and then resolving is resolving and then substituting. */
  lemma {:induction false} ResolvesReplaced(v: T.Target, c: string, valid: string -> bool, enabled: set<string>)
    ensures T.Resolve(Substitute(v, c, valid), enabled, T.Undefined)
            == ReplaceOutcome(T.Resolve(v, enabled, T.Undefined), c)
    decreases v
  {
    match v
    case Arr(entries) => ResolvesReplacedEntries(entries, 0, c, valid, enabled);
    case Obj(fields) => ResolvesReplacedFields(fields, 0, c, valid, enabled);
    case _ =>
  }

  lemma {:induction false} ResolvesReplacedEntries(entries: seq<T.Target>, i: nat, c: string, valid: string -> bool,
                                                   enabled: set<string>)
    requires i <= |entries|
    ensures T.ResolveEntries(SubstituteEntries(entries, c, valid), i, enabled, T.Undefined)
         == ReplaceOutcome(T.ResolveEntries(entries, i, enabled, T.Undefined), c)
    decreases entries, |entries| - i
  {
    if i < |entries| {
      EntrySubstituted(entries, i, c, valid);
      ResolvesReplaced(entries[i], c, valid, enabled);
      ResolvesReplacedEntries(entries, i + 1, c, valid, enabled);
    }
  }

  lemma {:induction false} ResolvesReplacedFields(fields: seq<T.Field>, i: nat, c: string, valid: string -> bool,
                                                  enabled: set<string>)
    requires i <= |fields|
    ensures T.ResolveFields(SubstituteFields(fields, c, valid), i, enabled, T.Undefined)
         == ReplaceOutcome(T.ResolveFields(fields, i, enabled, T.Undefined), c)
    decreases fields, |fields| - i
  {
    if i < |fields| {
      FieldSubstituted(fields, i, c, valid);
      ResolvesReplaced(fields[i].value, c, valid, enabled);
      ResolvesReplacedFields(fields, i + 1, c, valid, enabled);
    }
  }

  predicate FillsOutcome(v: T.Target, c: string, valid: string -> bool, enabled: set<string>) {
    T.Resolve(Substitute(v, c, valid), enabled, T.Undefined) == FillOutcome(T.Resolve(v, enabled, T.Undefined), c)
  }

  /** Resolving the substituted value gives what the reference gives, the capture filled into the resolved
      target, for every value and conditions exactly when the capture holds no special `$`. */
  lemma ResolvesSubstituted(c: string, valid: string -> bool)
    ensures (forall v: T.Target, enabled: set<string> :: FillsOutcome(v, c, valid, enabled)) <==> Literally(c)
  {
    SubstitutesExactly(c);
    if Literally(c) {
      forall v: T.Target, enabled: set<string>
        ensures FillsOutcome(v, c, valid, enabled)
      {
        ResolvesReplaced(v, c, valid, enabled);
        var o := T.Resolve(v, enabled, T.Undefined);
        if o.Resolved? { assert ReplaceAll(o.text, 0, c) == Fill(o.text, c); }
      }
    } else {
      var value :| ReplaceAll(value, 0, c) != Fill(value, c);
      var v: T.Target := T.Str(value, true);
      var none: set<string> := {};
      assert T.Resolve(Substitute(v, c, valid), none, T.Undefined) == T.Resolved(ReplaceAll(value, 0, c));
      assert FillOutcome(T.Resolve(v, none, T.Undefined), c) == T.Resolved(Fill(value, c));
      assert !FillsOutcome(v, c, valid, none);
    }
  }

  // ---------- Pattern keys ----------

  predicate StartsWith(s: string, prefix: string) {
    |prefix| <= |s| && s[..|prefix|] == prefix
  }

  predicate EndsWith(s: string, suffix: string) {
    |suffix| <= |s| && s[|s| - |suffix|..] == suffix
  }

  predicate IsPattern(key: string) {
    Stars(key) == 1 && StartsWith(key, "./")
  }

  function Prefix(key: string): string {
    key[..FirstStar(key)]
  }

  function Suffix(key: string): string
    requires FirstStar(key) < |key|
  {
    key[FirstStar(key) + 1..]
  }

  lemma {:induction false} StarFound(key: string)
    requires Stars(key) >= 1
    ensures FirstStar(key) < |key|
  {
    if key[0] != '*' {
      StarFound(key[1..]);
    }
  }

  /** What a subpath puts for the key's star. */
  function Replacement(key: string, subpath: string): Option<string>
    requires FirstStar(key) < |key|
  {
    var prefix, suffix := Prefix(key), Suffix(key);
    if StartsWith(subpath, prefix) && EndsWith(subpath, suffix) && |subpath| >= |key|
    then Some(subpath[|prefix|..|subpath| - |suffix|])
    else None
  }

  lemma {:induction false} FillNoStars(s: string, c: string)
    requires Stars(s) == 0
    ensures Fill(s, c) == s
  {
    if s != "" {
      FillNoStars(s[1..], c);
    }
  }

  lemma PrefixStep(key: string)
    requires key != "" && key[0] != '*' && FirstStar(key) < |key|
    ensures FirstStar(key) == 1 + FirstStar(key[1..])
    ensures Prefix(key) == [key[0]] + Prefix(key[1..]) && Suffix(key) == Suffix(key[1..])
  {
  }

  lemma Glue(first: string, p: string, c: string, s: string)
    ensures first + (p + c + s) == (first + p) + c + s
  {
  }

  lemma Cut(p: string, c: string, s: string)
    ensures var whole := p + c + s;
            whole[..|p|] == p && whole[|whole| - |s|..] == s && whole[|p|..|whole| - |s|] == c
  {
  }

  lemma Join(whole: string, p: nat, s: nat)
    requires p + s <= |whole|
    ensures whole == whole[..p] + whole[p..|whole| - s] + whole[|whole| - s..]
  {
  }

  lemma {:induction false} FillOneStar(key: string, c: string)
    requires Stars(key) == 1
    ensures FirstStar(key) < |key| && Fill(key, c) == Prefix(key) + c + Suffix(key)
  {
    StarFound(key);
    if key[0] == '*' {
      FillNoStars(key[1..], c);
    } else {
      var rest := key[1..];
      FillOneStar(rest, c);
      PrefixStep(key);
      Glue([key[0]], Prefix(rest), c, Suffix(rest));
      hide Prefix, Suffix, FirstStar, Stars;
      assert Fill(key, c) == [key[0]] + Fill(rest, c);
    }
  }

  lemma KeyLength(key: string)
    requires FirstStar(key) < |key|
    ensures |Prefix(key)| + 1 + |Suffix(key)| == |key|
    ensures key == Prefix(key) + "*" + Suffix(key)
  {
  }

  /** A subpath matches a pattern key with c exactly when c is not empty and the key filled with it. */
  lemma ReplacementExactly(key: string, subpath: string, c: string)
    requires IsPattern(key)
    ensures FirstStar(key) < |key|
    ensures Replacement(key, subpath) == Some(c) <==> c != "" && subpath == Fill(key, c)
  {
    FillOneStar(key, c);
    var prefix, suffix := Prefix(key), Suffix(key);
    hide Fill, Prefix, Suffix, Stars, FirstStar;
    assert |prefix| + 1 + |suffix| == |key| by { KeyLength(key); }
    if Replacement(key, subpath) == Some(c) {
      Join(subpath, |prefix|, |suffix|);
    }
    if c != "" && subpath == Fill(key, c) {
      Cut(prefix, c, suffix);
    }
  }

  // ---------- The most specific key ----------

  /** The sort's order: a later star first, then the longer key. */
  predicate Before(a: string, b: string) {
    FirstStar(a) > FirstStar(b) || (FirstStar(a) == FirstStar(b) && |a| > |b|)
  }

  predicate Matches(key: string, subpath: string) {
    FirstStar(key) < |key| && Replacement(key, subpath).Some?
  }

  /** Two keys that match one subpath never tie. */
  lemma NeverTie(a: string, b: string, subpath: string)
    requires IsPattern(a) && IsPattern(b) && a != b && Matches(a, subpath) && Matches(b, subpath)
    ensures Before(a, b) != Before(b, a)
  {
    if FirstStar(a) == FirstStar(b) && |a| == |b| {
      SameKey(a, b, subpath);
    }
  }

  lemma SameKey(a: string, b: string, subpath: string)
    requires Matches(a, subpath) && Matches(b, subpath) && FirstStar(a) == FirstStar(b) && |a| == |b|
    ensures a == b
  {
    KeyLength(a);
    KeyLength(b);
    assert Prefix(a) == subpath[..FirstStar(a)] == Prefix(b);
    assert Suffix(a) == subpath[|subpath| - |Suffix(a)|..] == Suffix(b);
  }

  function Insert(key: string, sorted: seq<string>): seq<string> {
    if sorted == [] || Before(key, sorted[0]) then [key] + sorted else [sorted[0]] + Insert(key, sorted[1..])
  }

  function SortKeys(keys: seq<string>): seq<string> {
    if keys == [] then [] else Insert(keys[|keys| - 1], SortKeys(keys[..|keys| - 1]))
  }

  predicate Sorted(keys: seq<string>) {
    forall i, j :: 0 <= i < j < |keys| ==> !Before(keys[j], keys[i])
  }

  lemma {:induction false} InsertHas(key: string, sorted: seq<string>)
    ensures forall k :: k in Insert(key, sorted) <==> k == key || k in sorted
  {
    if sorted != [] && !Before(key, sorted[0]) {
      InsertHas(key, sorted[1..]);
    }
  }

  lemma {:induction false} InsertSorts(key: string, sorted: seq<string>)
    requires Sorted(sorted)
    ensures Sorted(Insert(key, sorted))
  {
    if sorted != [] && !Before(key, sorted[0]) {
      InsertSorts(key, sorted[1..]);
      InsertHas(key, sorted[1..]);
      var r := Insert(key, sorted[1..]);
      forall j | 0 <= j < |r| ensures !Before(r[j], sorted[0]) {
        assert r[j] in r;
      }
    }
  }

  lemma {:induction false} SortKeysSorts(keys: seq<string>)
    ensures Sorted(SortKeys(keys))
    ensures forall k :: k in SortKeys(keys) <==> k in keys
  {
    if keys != [] {
      SortKeysSorts(keys[..|keys| - 1]);
      InsertSorts(keys[|keys| - 1], SortKeys(keys[..|keys| - 1]));
      InsertHas(keys[|keys| - 1], SortKeys(keys[..|keys| - 1]));
    }
  }

  function Find(patterns: seq<string>, subpath: string): (found: Option<string>)
    ensures found.Some? ==> found.value in patterns && Matches(found.value, subpath)
    ensures found.None? ==> forall k <- patterns :: !Matches(k, subpath)
  {
    if patterns == [] then None
    else if Matches(patterns[0], subpath) then Some(patterns[0])
    else Find(patterns[1..], subpath)
  }

  /** The key matches and comes before every other key that does. */
  ghost predicate MostSpecific(k: string, keys: seq<string>, subpath: string) {
    k in keys && Matches(k, subpath) && forall other <- keys :: other != k && Matches(other, subpath) ==>
      |Prefix(k)| > |Prefix(other)| || (|Prefix(k)| == |Prefix(other)| && |k| > |other|)
  }

  lemma {:induction false} FindsFirst(patterns: seq<string>, subpath: string)
    requires Sorted(patterns) && (forall k <- patterns :: IsPattern(k)) && Find(patterns, subpath).Some?
    ensures MostSpecific(Find(patterns, subpath).value, patterns, subpath)
  {
    if Matches(patterns[0], subpath) {
      forall i | 0 <= i < |patterns| && patterns[i] != patterns[0] && Matches(patterns[i], subpath)
        ensures Before(patterns[0], patterns[i])
      {
        NeverTie(patterns[0], patterns[i], subpath);
      }
    } else {
      FindsFirst(patterns[1..], subpath);
    }
  }

  /** The selected key is the maximum of PATTERN_KEY_COMPARE among the keys that match, in whatever order
      the map lists them; nothing is selected exactly when none matches. */
  lemma SelectsMostSpecific(keys: seq<string>, subpath: string, k: string)
    requires forall key <- keys :: IsPattern(key)
    ensures Find(SortKeys(keys), subpath) == Some(k) <==> MostSpecific(k, keys, subpath)
  {
    SortKeysSorts(keys);
    var found := Find(SortKeys(keys), subpath);
    if found.Some? {
      FindsFirst(SortKeys(keys), subpath);
      assert MostSpecific(found.value, keys, subpath);
    }
  }

  // ---------- Discovery ----------

  /** The declaration file beside a script; the target itself when it names no script. */
  function Declaration(target: string): string {
    if EndsWith(target, ".mjs") then target[..|target| - 4] + ".d.mts"
    else if EndsWith(target, ".cjs") then target[..|target| - 4] + ".d.cts"
    else if EndsWith(target, ".js") then target[..|target| - 3] + ".d.ts"
    else target
  }

  function Captured(target: string, file: string): Option<string> {
    if Exec(target, file).Some? then Exec(target, file)
    else if Declaration(target) != target then Exec(Declaration(target), file)
    else None
  }

  predicate Capturable(c: string) {
    c != "" && forall k :: 0 <= k < |c| ==> c[k] !in LINE_ENDS
  }

  lemma CapturableIsOneLine(c: string)
    ensures Capturable(c) <==> c != "" && OneLine(c)
  {
    if Capturable(c) {
      assert '\n' in LINE_ENDS && '\r' in LINE_ENDS && '\U{2028}' in LINE_ENDS && '\U{2029}' in LINE_ENDS;
    }
  }

  /** The file is the target filled with c or, when no filling of the target is the file, the target's
      declaration filled with c. */
  ghost predicate FilledBy(target: string, file: string, c: string) {
    && Capturable(c)
    && (Fill(target, c) == file
        || ((forall d :: Capturable(d) ==> Fill(target, d) != file) && Fill(Declaration(target), c) == file))
  }

  /** That is the capture the program takes, for scripts and for declarations. */
  lemma CapturedExactly(target: string, file: string, c: string)
    requires '*' in target
    ensures Captured(target, file) == Some(c) <==> FilledBy(target, file, c)
  {
    StarInStem(target);
    MatchesExactly(target, file, c);
    MatchesExactly(Declaration(target), file, c);
    CapturableIsOneLine(c);
    hide Exec, Fill, Declaration, OneLine;
    if Exec(target, file).Some? {
      MatchesExactly(target, file, Exec(target, file).value);
    } else {
      forall d | Capturable(d) ensures Fill(target, d) != file {
        MatchesExactly(target, file, d);
      }
    }
  }

  lemma {:induction false} FillBoth(a: string, b: string, c: string)
    ensures Fill(a + b, c) == Fill(a, c) + Fill(b, c)
  {
    if a == "" {
      assert a + b == b;
    } else {
      assert (a + b)[1..] == a[1..] + b;
      FillBoth(a[1..], b, c);
    }
  }

  lemma EndsAt(stem: string, extension: string)
    ensures EndsWith(stem + extension, extension)
    ensures (stem + extension)[..|stem + extension| - |extension|] == stem
  {
  }

  lemma OtherEnding(s: string, a: string, b: string, i: nat)
    requires |a| <= |b| && i < |a| && a[i] != b[|b| - |a| + i] && EndsWith(s, a)
    ensures !EndsWith(s, b)
  {
    var at := |s| - |a| + i;
    assert s[at] == s[|s| - |a|..][i] == a[i];
    if |b| <= |s| {
      assert s[at] == s[|s| - |b|..][|b| - |a| + i];
    }
  }

  lemma DeclarationOf(stem: string, extension: string, declaration: string)
    requires (extension == ".mjs" && declaration == ".d.mts") || (extension == ".cjs" && declaration == ".d.cts")
          || (extension == ".js" && declaration == ".d.ts")
    ensures Declaration(stem + extension) == stem + declaration
  {
    var t := stem + extension;
    EndsAt(stem, extension);
    hide EndsWith;
    if extension == ".cjs" {
      OtherEnding(t, ".cjs", ".mjs", 1);
    } else if extension == ".js" {
      OtherEnding(t, ".js", ".mjs", 0);
      OtherEnding(t, ".js", ".cjs", 0);
    }
  }

  lemma PlainFill(extension: string, c: string)
    requires extension == ".mjs" || extension == ".cjs" || extension == ".js" || extension == ".d.mts"
             || extension == ".d.cts" || extension == ".d.ts"
    ensures Fill(extension, c) == extension
  {
    NoStars(extension);
    FillNoStars(extension, c);
  }

  lemma {:induction false} NoStars(s: string)
    requires '*' !in s
    ensures Stars(s) == 0
  {
    if s != "" {
      NoStars(s[1..]);
    }
  }

  lemma DeclarationFillsAs(stem: string, extension: string, declaration: string, c: string)
    requires (extension == ".mjs" && declaration == ".d.mts") || (extension == ".cjs" && declaration == ".d.cts")
          || (extension == ".js" && declaration == ".d.ts")
    ensures Fill(Declaration(stem + extension), c) == Declaration(Fill(stem + extension, c))
  {
    hide Declaration, Fill;
    DeclarationOf(stem, extension, declaration);
    DeclarationOf(Fill(stem, c), extension, declaration);
    FillBoth(stem, extension, c);
    FillBoth(stem, declaration, c);
    PlainFill(extension, c);
    PlainFill(declaration, c);
  }

  /** For a script target, filling the declaration target is naming the declaration of the filled target. */
  lemma DeclarationFills(target: string, c: string)
    requires Declaration(target) != target
    ensures Fill(Declaration(target), c) == Declaration(Fill(target, c))
  {
    if EndsWith(target, ".mjs") {
      Ending(target, ".mjs");
      DeclarationFillsAs(target[..|target| - 4], ".mjs", ".d.mts", c);
    } else if EndsWith(target, ".cjs") {
      Ending(target, ".cjs");
      DeclarationFillsAs(target[..|target| - 4], ".cjs", ".d.cts", c);
    } else {
      Ending(target, ".js");
      DeclarationFillsAs(target[..|target| - 3], ".js", ".d.ts", c);
    }
  }

  lemma Ending(s: string, suffix: string)
    requires EndsWith(s, suffix)
    ensures s == s[..|s| - |suffix|] + suffix
  {
  }

  lemma {:induction false} StarInStem(target: string)
    requires '*' in target
    ensures '*' in Declaration(target)
  {
    if Declaration(target) != target {
      var i :| 0 <= i < |target| && target[i] == '*';
      assert Declaration(target)[i] == '*';
    }
  }

  /** The advertised subpath matches the key with the same capture, and substituting that in the target
      gives the file or the script it declares. */
  predicate LeadsBack(key: string, target: string, file: string, c: string) {
    && FirstStar(key) < |key| && Replacement(key, ReplaceFirst(key, c)) == Some(c)
    && (file == ReplaceAll(target, 0, c) || file == Declaration(ReplaceAll(target, 0, c)))
  }

  lemma DiscoveryRoundTrip(key: string, target: string, file: string, c: string)
    requires IsPattern(key) && '*' in target && FilledBy(target, file, c) && Literally(c)
    ensures LeadsBack(key, target, file, c)
  {
    SubstitutesExactly(c);
    if Fill(target, c) != file {
      DeclarationFills(target, c);
    }
    FillOneStar(key, c);
    ExpandsToItself(c, Prefix(key), Suffix(key));
    ReplacementExactly(key, Fill(key, c), c);
  }

  /** Under the shortest prefix an expanded capture is no longer, so it cannot come out as it was. */
  lemma {:induction false} ExpandsWithin(c: string)
    ensures |Expand(c, "./", "")| <= |c|
  {
    if |c| >= 2 {
      ExpandsWithin(c[1..]);
      ExpandsWithin(c[2..]);
    }
  }

  lemma {:induction false} ExpandsOtherwise(c: string, i: nat)
    requires SpecialAt(c, i)
    ensures Expand(c, "./", "") != c
  {
    ExpandsWithin(c[2..]);
    if SpecialAt(c, 0) {
      if c[1] == '`' {
        assert Expand(c, "./", "")[0] == '.';
      }
    } else {
      ExpandsOtherwise(c[1..], i - 1);
      var rest := Expand(c[1..], "./", "");
      assert Expand(c, "./", "") == [c[0]] + rest;
      assert ([c[0]] + rest)[1..] == rest;
    }
  }

  /** What is found under a pattern leads back to the file it was found from, whatever the key, target and
      file, exactly when the capture holds no special `$`. */
  lemma DiscoveryExactly(c: string)
    requires Capturable(c)
    ensures (forall key, target, file | IsPattern(key) && '*' in target && FilledBy(target, file, c) ::
               LeadsBack(key, target, file, c))
            <==> Literally(c)
  {
    if Literally(c) {
      forall key, target, file | IsPattern(key) && '*' in target && FilledBy(target, file, c)
        ensures LeadsBack(key, target, file, c)
      {
        DiscoveryRoundTrip(key, target, file, c);
      }
    } else {
      NotLedBack("./*", c);
      assert IsPattern("./*") && '*' in "./*";
    }
    hide FilledBy, LeadsBack;
  }

  lemma NotLedBack(key: string, c: string)
    requires key == "./*" && Capturable(c) && !Literally(c)
    ensures IsPattern(key) && '*' in key && FilledBy(key, "./" + c, c) && !LeadsBack(key, key, "./" + c, c)
  {
    var i :| 0 <= i < |c| && SpecialAt(c, i);
    ExpandsOtherwise(c, i);
    ShortestKey(key, c);
    assert FilledBy(key, "./" + c, c);
    var advertised := ReplaceFirst(key, c);
    ReplacementExactly(key, advertised, c);
    assert advertised[2..] == Expand(c, "./", "") && Fill(key, c)[2..] == c;
    hide Expand, Fill, ReplaceFirst;
  }

  lemma ShortestKey(key: string, c: string)
    requires key == "./*"
    ensures IsPattern(key) && '*' in key && Fill(key, c) == "./" + c
    ensures ReplaceFirst(key, c) == "./" + Expand(c, "./", "")
  {
    assert key[2] == '*' && key[1..][0] == '/' && key[1..][1..] == "*" && key[1..][1..][1..] == "";
    assert Stars(key[1..][1..]) == 1 && Stars(key[1..]) == 1 && Stars(key) == 1;
    assert FirstStar(key[1..][1..]) == 0 && FirstStar(key[1..]) == 1 && FirstStar(key) == 2;
    assert key[..2] == "./" && key[3..] == "";
    FillOneStar(key, c);
  }

  datatype Kind = Valid | Invalid | Unsupported
  datatype Reason = UnsupportedTarget | ConstantTarget | UnsupportedFileName

  predicate Usable(target: Option<string>, kind: string -> Kind) {
    target.Some? && kind(target.value) == Valid && '*' in target.value
  }

  predicate NameSupported(c: string, kind: string -> Kind) {
    kind("./" + c) == Valid && '*' !in c
  }

  /** The subpath p is found for the key at this file. */
  ghost predicate FoundAt(p: string, key: string, target: string, file: string, kind: string -> Kind) {
    exists c :: FilledBy(target, file, c) && kind("./" + c) == Valid && '*' !in c && p == ReplaceFirst(key, c)
  }

  ghost predicate FoundIn(p: string, key: string, target: string, files: seq<string>, kind: string -> Kind) {
    exists i :: 0 <= i < |files| && FoundAt(p, key, target, files[i], kind)
  }

  ghost predicate FoundUnder(p: string, key: string, targets: seq<Option<string>>, filesUnder: string -> seq<string>,
                             kind: string -> Kind)
  {
    exists i :: 0 <= i < |targets| && FoundFor(p, key, targets[i], filesUnder, kind)
  }

  /** A file matches with a capture no subpath can be made from. */
  ghost predicate SkippedIn(target: string, files: seq<string>, kind: string -> Kind) {
    exists i :: 0 <= i < |files| && SkippedAt(target, files[i], kind)
  }

  /** The reason this target gives for an incomplete discovery. */
  ghost predicate DueAt(r: Reason, target: Option<string>, filesUnder: string -> seq<string>, kind: string -> Kind) {
    match r
    case UnsupportedTarget => target.Some? && kind(target.value) != Valid
    case ConstantTarget => target.Some? && kind(target.value) == Valid && '*' !in target.value
    case UnsupportedFileName => Usable(target, kind) && SkippedIn(target.value, filesUnder(target.value), kind)
  }

  ghost predicate Due(r: Reason, targets: seq<Option<string>>, filesUnder: string -> seq<string>,
                      kind: string -> Kind)
  {
    exists i :: 0 <= i < |targets| && DueAt(r, targets[i], filesUnder, kind)
  }

  ghost predicate FoundFor(p: string, key: string, target: Option<string>, filesUnder: string -> seq<string>,
                           kind: string -> Kind)
  {
    Usable(target, kind) && FoundIn(p, key, target.value, filesUnder(target.value), kind)
  }

  /** The subpaths found for one key: `targets` are its flattened rows, `filesUnder` the files below a
      target's fixed part, `kind` the classification of targets. */
  method CollectCandidates(key: string, targets: seq<Option<string>>, filesUnder: string -> seq<string>,
                           kind: string -> Kind)
    returns (candidates: set<string>, reasons: set<Reason>)
    ensures forall p :: p in candidates <==> FoundUnder(p, key, targets, filesUnder, kind)
    ensures forall r :: r in reasons <==> Due(r, targets, filesUnder, kind)
  {
    assert Collected({}, {}, key, targets[..0], filesUnder, kind);
    hide FoundUnder, FoundFor, Due, DueAt;
    candidates, reasons := {}, {};
    for i := 0 to |targets|
      invariant Collected(candidates, reasons, key, targets[..i], filesUnder, kind)
    {
      var found, due := CollectTarget(key, targets[i], filesUnder, kind);
      CollectedGrows(candidates, reasons, key, targets, i, filesUnder, kind, found, due);
      candidates, reasons := candidates + found, reasons + due;
    }
    assert targets[..|targets|] == targets;
  }

  ghost predicate Collected(candidates: set<string>, reasons: set<Reason>, key: string, targets: seq<Option<string>>,
                            filesUnder: string -> seq<string>, kind: string -> Kind)
  {
    && (forall p :: p in candidates <==> FoundUnder(p, key, targets, filesUnder, kind))
    && (forall r :: r in reasons <==> Due(r, targets, filesUnder, kind))
  }

  lemma CollectedGrows(candidates: set<string>, reasons: set<Reason>, key: string, targets: seq<Option<string>>, i: nat,
                       filesUnder: string -> seq<string>, kind: string -> Kind, found: set<string>, due: set<Reason>)
    requires i < |targets| && Collected(candidates, reasons, key, targets[..i], filesUnder, kind)
    requires forall p :: p in found <==> FoundFor(p, key, targets[i], filesUnder, kind)
    requires forall r :: r in due <==> DueAt(r, targets[i], filesUnder, kind)
    ensures Collected(candidates + found, reasons + due, key, targets[..i + 1], filesUnder, kind)
  {
    hide FoundUnder, FoundFor, Due, DueAt;
    forall p ensures p in candidates + found <==> FoundUnder(p, key, targets[..i + 1], filesUnder, kind) {
      FoundUnderGrows(p, key, targets, i, filesUnder, kind);
    }
    forall r ensures r in reasons + due <==> Due(r, targets[..i + 1], filesUnder, kind) {
      DueGrows(r, targets, i, filesUnder, kind);
    }
  }

  lemma FoundUnderGrows(p: string, key: string, targets: seq<Option<string>>, i: nat, filesUnder: string -> seq<string>,
                        kind: string -> Kind)
    requires i < |targets|
    ensures FoundUnder(p, key, targets[..i + 1], filesUnder, kind) <==>
            FoundUnder(p, key, targets[..i], filesUnder, kind) || FoundFor(p, key, targets[i], filesUnder, kind)
  {
    hide FoundFor;
    var now, next := targets[..i], targets[..i + 1];
    assert forall j :: 0 <= j < i ==> next[j] == now[j];
    assert next[i] == targets[i];
  }

  lemma DueGrows(r: Reason, targets: seq<Option<string>>, i: nat, filesUnder: string -> seq<string>,
                 kind: string -> Kind)
    requires i < |targets|
    ensures Due(r, targets[..i + 1], filesUnder, kind) <==>
            Due(r, targets[..i], filesUnder, kind) || DueAt(r, targets[i], filesUnder, kind)
  {
    hide DueAt;
    var now, next := targets[..i], targets[..i + 1];
    assert forall j :: 0 <= j < i ==> next[j] == now[j];
    assert next[i] == targets[i];
  }

  /** One target: usable ones are looked for among the files, the others give a reason. */
  method CollectTarget(key: string, target: Option<string>, filesUnder: string -> seq<string>, kind: string -> Kind)
    returns (found: set<string>, due: set<Reason>)
    ensures forall p :: p in found <==> FoundFor(p, key, target, filesUnder, kind)
    ensures forall r :: r in due <==> DueAt(r, target, filesUnder, kind)
  {
    hide FoundIn, SkippedIn;
    found, due := {}, {};
    if target.None? {
      return;
    }
    if kind(target.value) != Valid {
      due := {UnsupportedTarget};
    } else if '*' !in target.value {
      due := {ConstantTarget};
    } else {
      var unsupported;
      found, unsupported := CollectFrom(key, target.value, filesUnder(target.value), kind);
      due := if unsupported then {UnsupportedFileName} else {};
    }
  }

  lemma FoundInGrows(p: string, key: string, target: string, files: seq<string>, i: nat, kind: string -> Kind)
    requires i < |files|
    ensures FoundIn(p, key, target, files[..i + 1], kind) <==>
            FoundIn(p, key, target, files[..i], kind) || FoundAt(p, key, target, files[i], kind)
  {
    hide FoundAt;
    var now, next := files[..i], files[..i + 1];
    assert forall j :: 0 <= j < i ==> next[j] == now[j];
    assert next[i] == files[i];
  }

  ghost predicate SkippedAt(target: string, file: string, kind: string -> Kind) {
    exists c :: FilledBy(target, file, c) && (kind("./" + c) != Valid || '*' in c)
  }

  /** Both in terms of the one capture there is. */
  lemma CapturedDecides(p: string, key: string, target: string, file: string, kind: string -> Kind)
    requires '*' in target
    ensures var c := Captured(target, file);
            && (FoundAt(p, key, target, file, kind)
                <==> c.Some? && NameSupported(c.value, kind) && p == ReplaceFirst(key, c.value))
            && (SkippedAt(target, file, kind) <==> c.Some? && !NameSupported(c.value, kind))
  {
    forall c ensures Captured(target, file) == Some(c) <==> FilledBy(target, file, c) {
      CapturedExactly(target, file, c);
    }
    hide Captured, FilledBy, ReplaceFirst;
  }

  lemma SkippedInGrows(target: string, files: seq<string>, i: nat, kind: string -> Kind)
    requires i < |files|
    ensures SkippedIn(target, files[..i + 1], kind) <==>
            SkippedIn(target, files[..i], kind) || SkippedAt(target, files[i], kind)
  {
    hide SkippedAt;
    var now, next := files[..i], files[..i + 1];
    assert forall j :: 0 <= j < i ==> next[j] == now[j];
    assert next[i] == files[i];
  }

  method CollectFrom(key: string, target: string, files: seq<string>, kind: string -> Kind)
    returns (found: set<string>, unsupported: bool)
    requires '*' in target
    ensures forall p :: p in found <==> FoundIn(p, key, target, files, kind)
    ensures unsupported <==> SkippedIn(target, files, kind)
  {
    found, unsupported := {}, false;
    assert FoundFrom(found, unsupported, key, target, files[..0], kind);
    for i := 0 to |files|
      invariant FoundFrom(found, unsupported, key, target, files[..i], kind)
    {
      hide *;
      FoundFromGrows(found, unsupported, key, target, files, i, kind);
      var captured := Captured(target, files[i]);
      if captured.Some? {
        if NameSupported(captured.value, kind) {
          found := found + {ReplaceFirst(key, captured.value)};
        } else {
          unsupported := true;
        }
      }
    }
    assert files[..|files|] == files;
  }

  ghost predicate FoundFrom(found: set<string>, unsupported: bool, key: string, target: string, files: seq<string>,
                            kind: string -> Kind)
  {
    && (forall p :: p in found <==> FoundIn(p, key, target, files, kind))
    && (unsupported <==> SkippedIn(target, files, kind))
  }

  lemma FoundFromGrows(found: set<string>, unsupported: bool, key: string, target: string, files: seq<string>, i: nat,
                       kind: string -> Kind)
    requires '*' in target && i < |files| && FoundFrom(found, unsupported, key, target, files[..i], kind)
    ensures var c := Captured(target, files[i]);
            && (c.None? ==> FoundFrom(found, unsupported, key, target, files[..i + 1], kind))
            && (c.Some? && NameSupported(c.value, kind) ==>
                FoundFrom(found + {ReplaceFirst(key, c.value)}, unsupported, key, target, files[..i + 1], kind))
            && (c.Some? && !NameSupported(c.value, kind) ==>
                FoundFrom(found, true, key, target, files[..i + 1], kind))
  {
    forall p
      ensures FoundIn(p, key, target, files[..i + 1], kind) <==>
              FoundIn(p, key, target, files[..i], kind) || FoundAt(p, key, target, files[i], kind)
      ensures var c := Captured(target, files[i]);
              FoundAt(p, key, target, files[i], kind)
              <==> c.Some? && NameSupported(c.value, kind) && p == ReplaceFirst(key, c.value)
    {
      FoundInGrows(p, key, target, files, i, kind);
      CapturedDecides(p, key, target, files[i], kind);
    }
    SkippedInGrows(target, files, i, kind);
    CapturedDecides("", key, target, files[i], kind);
    hide FoundIn, SkippedIn, FoundAt, SkippedAt, Captured, NameSupported, ReplaceFirst;
  }
}
