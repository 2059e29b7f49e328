/** The functions that a corpus exports: which ones are added, which ones are dropped again, and that there
    is only one of each identifier. */
module ExportedDecls {
  import opened ChangeTables
  import opened Options

  datatype Symbol = Symbol(name: string, version: string)

  datatype Function = Function(id: string, qualifiedName: string, symbol: Option<Symbol>, isPublic: bool)

  function Id(): Function -> string { (f: Function) => f.id }

  /** What the user asks for: symbols to keep, and regular expressions of functions to suppress or to keep.
      An empty list of things to keep keeps everything. */
  datatype Tunables = Tunables(symbolsToKeep: seq<Symbol>, suppress: seq<string>, keep: seq<string>)

  /** Regular expressions: which texts are one, and which names they match. */
  datatype Regex = Regex(compiles: string -> bool, matches: (string, string) -> bool)

  /** The exported functions, and the function that was first added for an identifier.  The map keeps the
      functions that are dropped.  Expressions are compiled when they are first needed; once there are some,
      they are not compiled again. */
  datatype Exported = Exported(fns: seq<Function>, fnsMap: map<string, Function>, suppress: seq<string>,
                               keep: seq<string>)

  // ----- Which functions are to be kept

  function Compiled(rx: Regex, texts: seq<string>): seq<string> {
    if texts == [] then []
    else
      var n := |texts| - 1;
      Compiled(rx, texts[..n]) + if rx.compiles(texts[n]) then [texts[n]] else []
  }

  /** The expressions in force: those compiled before, if any, or else those that the user asks for now. */
  function InForce(rx: Regex, compiled: seq<string>, texts: seq<string>): (r: seq<string>)
    ensures compiled != [] ==> r == compiled
  {
    if compiled == [] then Compiled(rx, texts) else compiled
  }

  ghost predicate KeptById(t: Tunables, f: Function) {
    f.symbol.Some? && (t.symbolsToKeep == [] || f.symbol.value in t.symbolsToKeep)
  }

  ghost predicate SomeMatch(rx: Regex, regexes: seq<string>, name: string) {
    exists i :: 0 <= i < |regexes| && rx.matches(regexes[i], name)
  }

  ghost predicate Suppressed(rx: Regex, e: Exported, t: Tunables, f: Function) {
    SomeMatch(rx, InForce(rx, e.suppress, t.suppress), f.qualifiedName)
  }

  ghost predicate Kept(rx: Regex, e: Exported, t: Tunables, f: Function) {
    && KeptById(t, f)
    && !Suppressed(rx, e, t, f)
    && var keep := InForce(rx, e.keep, t.keep);
       keep == [] || SomeMatch(rx, keep, f.qualifiedName)
  }

  /** Asking whether a function is to be kept compiles the expressions that are needed for the answer. */
  ghost function Asked(rx: Regex, e: Exported, t: Tunables, f: Function): (r: Exported)
    ensures r.fns == e.fns && r.fnsMap == e.fnsMap
  {
    if !KeptById(t, f) then e
    else
      e.(suppress := InForce(rx, e.suppress, t.suppress),
         keep := if Suppressed(rx, e, t, f) then e.keep else InForce(rx, e.keep, t.keep))
  }

  /** It does not change the answer for any other function. */
  lemma AskedKeeps(rx: Regex, e: Exported, t: Tunables, f: Function, g: Function)
    ensures Kept(rx, Asked(rx, e, t, f), t, g) <==> Kept(rx, e, t, g)
  {
    hide SomeMatch, KeptById;
  }

  /** What is exported already has no part in the answer. */
  lemma AnswersWithoutFns(rx: Regex, e: Exported, fns: seq<Function>, fnsMap: map<string, Function>, t: Tunables,
                          f: Function)
    ensures Kept(rx, e.(fns := fns, fnsMap := fnsMap), t, f) == Kept(rx, e, t, f)
    ensures Asked(rx, e.(fns := fns, fnsMap := fnsMap), t, f) == Asked(rx, e, t, f).(fns := fns, fnsMap := fnsMap)
  {
  }

  // ----- Adding and dropping functions, on values

  datatype Step = Add(f: Function, t: Tunables) | Drop(t: Tunables)

  /** The functions that are kept, and the expressions compiled for that. */
  ghost function Filtered(rx: Regex, e: Exported, t: Tunables, fs: seq<Function>): (r: Exported)
    ensures r.fnsMap == e.fnsMap
    ensures forall f :: f in r.fns <==> f in fs && Kept(rx, e, t, f)
    ensures forall f :: Kept(rx, r, t, f) <==> Kept(rx, e, t, f)
  {
    if fs == [] then e.(fns := [])
    else
      var n := |fs| - 1;
      var r := Filtered(rx, e, t, fs[..n]);
      assert forall g :: Kept(rx, Asked(rx, r, t, fs[n]), t, g) <==> Kept(rx, r, t, g) by {
        forall g {
          AskedKeeps(rx, r, t, fs[n], g);
        }
      }
      var asked := Asked(rx, r, t, fs[n]);
      if Kept(rx, r, t, fs[n]) then asked.(fns := r.fns + [fs[n]]) else asked
  }

  ghost function Stepped(rx: Regex, e: Exported, step: Step): Exported {
    match step
    case Add(f, t) =>
      if !f.isPublic || f.id in e.fnsMap then e
      else
        var asked := Asked(rx, e, t, f);
        if Kept(rx, e, t, f) then asked.(fns := e.fns + [f], fnsMap := e.fnsMap[f.id := f]) else asked
    case Drop(t) => Filtered(rx, e, t, e.fns)
  }

  ghost function Run(rx: Regex, steps: seq<Step>): Exported {
    if steps == [] then Exported([], map[], [], [])
    else Stepped(rx, Run(rx, steps[..|steps| - 1]), steps[|steps| - 1])
  }

  // ----- What is exported after any run

  /** No two functions have the same identifier, and the map knows all of them. */
  ghost predicate Valid(e: Exported) {
    UniqueKeys(e.fns, Id()) && forall f :: f in e.fns ==> f.id in e.fnsMap && e.fnsMap[f.id] == f
  }

  lemma {:induction false} FilteredUnique(rx: Regex, e: Exported, t: Tunables, fs: seq<Function>)
    requires UniqueKeys(fs, Id())
    ensures UniqueKeys(Filtered(rx, e, t, fs).fns, Id())
  {
    hide Kept, Asked;
    if fs != [] {
      var n := |fs| - 1;
      FilteredUnique(rx, e, t, fs[..n]);
      var r := Filtered(rx, e, t, fs[..n]).fns;
      forall i | 0 <= i < |r|
        ensures Id()(r[i]) != Id()(fs[n])
      {
        assert r[i] in fs[..n];
      }
    }
  }

  lemma SteppedValid(rx: Regex, e: Exported, step: Step)
    requires Valid(e)
    ensures Valid(Stepped(rx, e, step))
  {
    hide Kept, Asked;
    if step.Drop? {
      FilteredUnique(rx, e, step.t, e.fns);
    } else if step.f.id !in e.fnsMap {
      forall i | 0 <= i < |e.fns|
        ensures Id()(e.fns[i]) != Id()(step.f)
      {
        assert e.fns[i] in e.fns;
      }
    }
  }

  /** Whatever is added and dropped, in whatever order, identifiers stay unique. */
  lemma {:induction false} RunValid(rx: Regex, steps: seq<Step>)
    ensures Valid(Run(rx, steps))
  {
    hide Valid, Stepped;
    if steps == [] {
      EmptyValid();
    } else {
      RunValid(rx, steps[..|steps| - 1]);
      SteppedValid(rx, Run(rx, steps[..|steps| - 1]), steps[|steps| - 1]);
    }
  }

  lemma EmptyValid()
    ensures Valid(Exported([], map[], [], []))
  {
  }

  /** The answer that the builder gives in step i about a function. */
  ghost predicate KeptIn(rx: Regex, steps: seq<Step>, i: nat, f: Function)
    requires i < |steps|
  {
    Kept(rx, Run(rx, steps[..i]), steps[i].t, f)
  }

  ghost predicate Eligible(rx: Regex, steps: seq<Step>, i: nat)
    requires i < |steps|
  {
    steps[i].Add? && steps[i].f.isPublic && KeptIn(rx, steps, i, steps[i].f)
  }

  /** The function of step i is the first one of its identifier that was eligible. */
  ghost predicate FirstEligible(rx: Regex, steps: seq<Step>, i: nat) {
    && i < |steps| && Eligible(rx, steps, i)
    && forall j :: 0 <= j < i && Eligible(rx, steps, j) ==> steps[j].f.id != steps[i].f.id
  }

  /** No later step dropped the function of step i. */
  ghost predicate Survives(rx: Regex, steps: seq<Step>, i: nat)
    requires i < |steps| && steps[i].Add?
  {
    forall j :: i < j < |steps| && steps[j].Drop? ==> KeptIn(rx, steps, j, steps[i].f)
  }

  ghost predicate ExportedBy(rx: Regex, steps: seq<Step>, f: Function) {
    exists i: nat :: FirstEligible(rx, steps, i) && Survives(rx, steps, i) && steps[i].f == f
  }

  ghost predicate Seen(rx: Regex, steps: seq<Step>, id: string) {
    exists i: nat :: i < |steps| && Eligible(rx, steps, i) && steps[i].f.id == id
  }

  lemma PrefixStep(rx: Regex, steps: seq<Step>, n: nat, i: nat)
    requires i < n <= |steps|
    ensures steps[..n][i] == steps[i] && forall f :: KeptIn(rx, steps[..n], i, f) == KeptIn(rx, steps, i, f)
    ensures Eligible(rx, steps[..n], i) == Eligible(rx, steps, i)
  {
    assert steps[..n][..i] == steps[..i];
  }

  /** An identifier is known to the map when an eligible function of that identifier has been added once. */
  lemma {:induction false} RunSeen(rx: Regex, steps: seq<Step>, id: string)
    ensures id in Run(rx, steps).fnsMap <==> Seen(rx, steps, id)
  {
    hide Kept, Filtered, Asked, Eligible;
    if steps != [] {
      var n := |steps| - 1;
      RunSeen(rx, steps[..n], id);
      forall i: nat | i < n
        ensures steps[..n][i] == steps[i] && Eligible(rx, steps[..n], i) == Eligible(rx, steps, i)
      {
        PrefixStep(rx, steps, n, i);
      }
      SeenLast(rx, steps, n, id);
      LastEligible(rx, steps, n);
      if id in Run(rx, steps[..n]).fnsMap {
        RunSeenGrows(rx, steps, n, id);
      }
    }
  }

  lemma RunSeenGrows(rx: Regex, steps: seq<Step>, n: nat, id: string)
    requires |steps| == n + 1 && id in Run(rx, steps[..n]).fnsMap
    ensures id in Run(rx, steps).fnsMap
  {
    hide Kept;
  }

  lemma SeenLast(rx: Regex, steps: seq<Step>, n: nat, id: string)
    requires |steps| == n + 1
    requires forall i: nat :: i < n ==>
               steps[..n][i] == steps[i] && Eligible(rx, steps[..n], i) == Eligible(rx, steps, i)
    ensures Seen(rx, steps, id) <==> Seen(rx, steps[..n], id) || (Eligible(rx, steps, n) && steps[n].f.id == id)
  {
    hide KeptIn;
    if Seen(rx, steps[..n], id) {
      var i: nat :| i < n && Eligible(rx, steps[..n], i) && steps[..n][i].f.id == id;
      assert Eligible(rx, steps, i) && steps[i].f.id == id;
    }
  }

  lemma LastEligible(rx: Regex, steps: seq<Step>, n: nat)
    requires |steps| == n + 1
    ensures Eligible(rx, steps, n)
       <==> steps[n].Add? && steps[n].f.isPublic && Kept(rx, Run(rx, steps[..n]), steps[n].t, steps[n].f)
  {
    hide Kept;
  }

  lemma PrefixSteps(rx: Regex, steps: seq<Step>, n: nat, i: nat)
    requires |steps| == n + 1 && i < n
    ensures FirstEligible(rx, steps, i) <==> FirstEligible(rx, steps[..n], i)
    ensures steps[i].Add? ==> (Survives(rx, steps, i) <==> Survives(rx, steps[..n], i) && (steps[n].Drop? ==>
        KeptIn(rx, steps, n, steps[i].f)))
  {
    hide KeptIn, Eligible;
    forall j: nat | j < n
      ensures steps[..n][j] == steps[j] && forall f :: KeptIn(rx, steps[..n], j, f) == KeptIn(rx, steps, j, f)
      ensures Eligible(rx, steps[..n], j) == Eligible(rx, steps, j)
    {
      PrefixStep(rx, steps, n, j);
    }
    EligibleAdds(rx, steps[..n], i);
  }

  lemma EligibleAdds(rx: Regex, steps: seq<Step>, i: nat)
    requires i < |steps|
    ensures Eligible(rx, steps, i) ==> steps[i].Add?
  {
  }

  /** The last step comes after all others, and is the first one of its identifier when that was not seen. */
  lemma LastStep(rx: Regex, steps: seq<Step>, n: nat)
    requires |steps| == n + 1 && Eligible(rx, steps, n)
    ensures FirstEligible(rx, steps, n) <==> !Seen(rx, steps[..n], steps[n].f.id)
    ensures Survives(rx, steps, n)
  {
    hide KeptIn;
    forall j: nat | j < n
      ensures steps[..n][j] == steps[j] && Eligible(rx, steps[..n], j) == Eligible(rx, steps, j)
    {
      PrefixStep(rx, steps, n, j);
    }
  }

  lemma ExportedByPrefix(rx: Regex, steps: seq<Step>, n: nat, f: Function)
    requires |steps| == n + 1
    ensures ExportedBy(rx, steps, f) <==>
              || (ExportedBy(rx, steps[..n], f) && (steps[n].Drop? ==> KeptIn(rx, steps, n, f)))
              || (Eligible(rx, steps, n) && steps[n].f == f && !Seen(rx, steps[..n], f.id))
  {
    hide KeptIn, Seen, Survives;
    var before := steps[..n];
    if ExportedBy(rx, steps, f) {
      var i: nat :| FirstEligible(rx, steps, i) && Survives(rx, steps, i) && steps[i].f == f;
      if i < n {
        PrefixSteps(rx, steps, n, i);
        assert FirstEligible(rx, before, i) && Survives(rx, before, i) && before[i].f == f;
      } else {
        LastStep(rx, steps, n);
      }
    }
    if ExportedBy(rx, before, f) && (steps[n].Drop? ==> KeptIn(rx, steps, n, f)) {
      var i: nat :| FirstEligible(rx, before, i) && Survives(rx, before, i) && before[i].f == f;
      PrefixSteps(rx, steps, n, i);
      assert FirstEligible(rx, steps, i) && Survives(rx, steps, i) && steps[i].f == f;
    }
    if Eligible(rx, steps, n) && steps[n].f == f && !Seen(rx, before, f.id) {
      LastStep(rx, steps, n);
    }
  }

  /** After any run, a function is exported if and only if it was the first eligible one of its identifier
      and has been kept ever since.  A function that was dropped is never exported again. */
  lemma {:induction false} RunExports(rx: Regex, steps: seq<Step>, f: Function)
    ensures f in Run(rx, steps).fns <==> ExportedBy(rx, steps, f)
  {
    hide Kept, ExportedBy, Seen, Eligible, Asked;
    if steps == [] {
      NothingExported(rx, f);
    } else {
      var n := |steps| - 1;
      RunExports(rx, steps[..n], f);
      RunSeen(rx, steps[..n], f.id);
      ExportedByPrefix(rx, steps, n, f);
      LastEligible(rx, steps, n);
    }
  }

  lemma NothingExported(rx: Regex, f: Function)
    ensures !ExportedBy(rx, [], f)
  {
  }

  /** Dropping functions keeps the order of the others. */
  lemma {:induction false} FilteredInOrder(rx: Regex, e: Exported, t: Tunables, fs: seq<Function>, a: nat, b: nat)
    returns (c: nat, d: nat)
    requires a < b < |Filtered(rx, e, t, fs).fns|
    ensures c < d < |fs| && fs[c] == Filtered(rx, e, t, fs).fns[a] && fs[d] == Filtered(rx, e, t, fs).fns[b]
  {
    hide Kept, Filtered;
    if fs == [] {
      FilteredNone(rx, e, t);
      assert false;
    }
    var n := |fs| - 1;
    var r := Filtered(rx, e, t, fs[..n]).fns;
    FilteredStep(rx, e, t, fs, n);
    if b < |r| {
      c, d := FilteredInOrder(rx, e, t, fs[..n], a, b);
    } else {
      assert r[a] in fs[..n];
      c, d :| 0 <= c < n && fs[..n][c] == r[a] && d == n;
    }
  }

  /** Functions are exported in the order in which they were added. */
  lemma {:induction false} RunInOrder(rx: Regex, steps: seq<Step>, a: nat, b: nat) returns (i: nat, j: nat)
    requires a < b < |Run(rx, steps).fns|
    ensures i < j < |steps| && FirstEligible(rx, steps, i) && FirstEligible(rx, steps, j)
    ensures steps[i].f == Run(rx, steps).fns[a] && steps[j].f == Run(rx, steps).fns[b]
  {
    hide Kept, FirstEligible, Filtered, Asked;
    var n := |steps| - 1;
    var before := Run(rx, steps[..n]).fns;
    if steps[n].Drop? {
      var c, d := FilteredInOrder(rx, Run(rx, steps[..n]), steps[n].t, before, a, b);
      i, j := RunInOrder(rx, steps[..n], c, d);
      PrefixSteps(rx, steps, n, i);
      PrefixSteps(rx, steps, n, j);
    } else if b < |before| {
      i, j := RunInOrder(rx, steps[..n], a, b);
      PrefixSteps(rx, steps, n, i);
      PrefixSteps(rx, steps, n, j);
    } else {
      i := AddedBy(rx, steps, n, before[a]);
      LastIsNew(rx, steps, n);
      j := n;
    }
  }

  /** The step that added what is exported by now. */
  lemma AddedBy(rx: Regex, steps: seq<Step>, n: nat, f: Function) returns (i: nat)
    requires |steps| == n + 1 && f in Run(rx, steps[..n]).fns
    ensures i < n && FirstEligible(rx, steps, i) && steps[i].f == f
  {
    hide KeptIn, Run, Survives;
    RunExports(rx, steps[..n], f);
    i :| FirstEligible(rx, steps[..n], i) && Survives(rx, steps[..n], i) && steps[..n][i].f == f;
    PrefixSteps(rx, steps, n, i);
  }

  lemma LastIsNew(rx: Regex, steps: seq<Step>, n: nat)
    requires |steps| == n + 1 && steps[n].Add? && Run(rx, steps) != Run(rx, steps[..n])
    requires |Run(rx, steps).fns| > |Run(rx, steps[..n]).fns|
    ensures FirstEligible(rx, steps, n) && steps[n].f == Run(rx, steps).fns[|Run(rx, steps[..n]).fns|]
  {
    hide Kept, Asked, Seen, FirstEligible;
    LastEligible(rx, steps, n);
    RunSeen(rx, steps[..n], steps[n].f.id);
    LastStep(rx, steps, n);
  }

  // ----- The compiled expressions

  /** A step leaves expressions that are in force, and else may compile those that are asked for. */
  ghost predicate CompiledIn(rx: Regex, e: Exported, t: Tunables, r: Exported) {
    && (r.suppress == e.suppress || r.suppress == InForce(rx, e.suppress, t.suppress))
    && (r.keep == e.keep || r.keep == InForce(rx, e.keep, t.keep))
  }

  lemma {:induction false} FilteredCompiles(rx: Regex, e: Exported, t: Tunables, fs: seq<Function>)
    ensures CompiledIn(rx, e, t, Filtered(rx, e, t, fs))
  {
    hide Kept, Suppressed, KeptById;
    if fs != [] {
      FilteredCompiles(rx, e, t, fs[..|fs| - 1]);
    }
  }

  lemma SteppedCompiles(rx: Regex, e: Exported, step: Step)
    ensures CompiledIn(rx, e, step.t, Stepped(rx, e, step))
  {
    hide Kept, Suppressed, KeptById;
    if step.Drop? {
      FilteredCompiles(rx, e, step.t, e.fns);
    }
  }

  /** Nothing is compiled for a function that is not asked about, or has no symbol that is asked for; and the
      expressions to keep are not compiled for one that is to be suppressed.  For any other function both lists
      are in force afterwards. */
  lemma AddCompiles(rx: Regex, e: Exported, f: Function, t: Tunables)
    ensures var r := Stepped(rx, e, Add(f, t));
            && (!f.isPublic || f.id in e.fnsMap || !KeptById(t, f) ==> r == e)
            && (e.suppress == [] && SomeTextMatches(rx, t.suppress, f.qualifiedName) ==> r.keep == e.keep)
            && (f.isPublic && f.id !in e.fnsMap && KeptById(t, f) && e.suppress == [] ==>
                  forall name ::
                    SomeMatch(rx, r.suppress, name) <==> SomeTextMatches(rx, t.suppress, name))
  {
    hide KeptById, SomeMatch, SomeTextMatches, Compiled;
    forall name: string
      ensures SomeMatch(rx, Compiled(rx, t.suppress), name) <==> SomeTextMatches(rx, t.suppress, name)
    {
      CompiledTexts(rx, t.suppress, name);
    }
  }

  /** Once some expression is in force, no later run changes the list, whatever the user asks for. */
  lemma {:induction false} RunKeepsCompiled(rx: Regex, steps: seq<Step>, more: seq<Step>)
    ensures var e, r := Run(rx, steps), Run(rx, steps + more);
            && (e.suppress != [] ==> r.suppress == e.suppress)
            && (e.keep != [] ==> r.keep == e.keep)
    decreases |more|
  {
    hide Stepped;
    if more == [] {
      assert steps + more == steps;
    } else {
      var n := |more| - 1;
      RunKeepsCompiled(rx, steps, more[..n]);
      assert (steps + more)[..|steps| + n] == steps + more[..n];
      SteppedCompiles(rx, Run(rx, steps + more[..n]), more[n]);
    }
  }

  /** A function that other tunables have kept is still kept with the expressions compiled from those. */
  lemma CompiledInKeeps(rx: Regex, e: Exported, t: Tunables, other: Tunables, r: Exported, f: Function)
    requires Kept(rx, e, t, f) && Kept(rx, e, other, f) && CompiledIn(rx, e, other, r)
    ensures Kept(rx, r, t, f)
  {
    hide SomeMatch, KeptById, Compiled;
  }

  /** What was added with certain tunables, and is still there, is kept by them. */
  lemma {:induction false} AddedAreKept(rx: Regex, steps: seq<Step>, t: Tunables, f: Function)
    requires forall i :: 0 <= i < |steps| && steps[i].Add? ==> steps[i].t == t
    requires f in Run(rx, steps).fns
    ensures Kept(rx, Run(rx, steps), t, f)
  {
    hide Kept, CompiledIn, Asked;
    var n := |steps| - 1;
    var e, step := Run(rx, steps[..n]), steps[n];
    SteppedCompiles(rx, e, step);
    if f in e.fns {
      AddedAreKept(rx, steps[..n], t, f);
    }
    if step.Drop? {
      CompiledInKeeps(rx, e, t, step.t, Stepped(rx, e, step), f);
    } else if step.f.isPublic && step.f.id !in e.fnsMap {
      AskedKeeps(rx, e, t, step.f, f);
      AnswersWithoutFns(rx, Asked(rx, e, t, step.f), Run(rx, steps).fns, Run(rx, steps).fnsMap, t, f);
    }
  }

  /** Dropping with the tunables that the functions were added with drops nothing, whatever was dropped with
      others in between. */
  lemma DropWithSameTunables(rx: Regex, steps: seq<Step>, t: Tunables)
    requires forall i :: 0 <= i < |steps| && steps[i].Add? ==> steps[i].t == t
    ensures Run(rx, steps + [Drop(t)]).fns == Run(rx, steps).fns
  {
    hide Kept, Filtered;
    var e := Run(rx, steps);
    assert (steps + [Drop(t)])[..|steps|] == steps;
    forall f | f in e.fns
      ensures Kept(rx, e, t, f)
    {
      AddedAreKept(rx, steps, t, f);
    }
    FilteredAll(rx, e, t, e.fns);
  }

  lemma FilteredNone(rx: Regex, e: Exported, t: Tunables)
    ensures Filtered(rx, e, t, []).fns == []
  {
  }

  lemma FilteredStep(rx: Regex, e: Exported, t: Tunables, fs: seq<Function>, n: nat)
    requires |fs| == n + 1
    ensures Filtered(rx, e, t, fs).fns
         == Filtered(rx, e, t, fs[..n]).fns + if Kept(rx, e, t, fs[n]) then [fs[n]] else []
  {
    hide Kept, Asked;
  }

  lemma {:induction false} FilteredAll(rx: Regex, e: Exported, t: Tunables, fs: seq<Function>)
    requires forall f :: f in fs ==> Kept(rx, e, t, f)
    ensures Filtered(rx, e, t, fs).fns == fs
  {
    hide Kept, Asked, Filtered;
    if fs == [] {
      FilteredNone(rx, e, t);
    } else {
      var n := |fs| - 1;
      assert fs[n] in fs;
      FilteredAll(rx, e, t, fs[..n]);
      FilteredStep(rx, e, t, fs, n);
    }
  }

  // ----- What the user gets who asks for the same all along

  /** Some text is a regular expression that matches the name. */
  ghost predicate SomeTextMatches(rx: Regex, texts: seq<string>, name: string) {
    exists i :: 0 <= i < |texts| && rx.compiles(texts[i]) && rx.matches(texts[i], name)
  }

  /** No text is a regular expression. */
  ghost predicate NoTextCompiles(rx: Regex, texts: seq<string>) {
    forall i :: 0 <= i < |texts| ==> !rx.compiles(texts[i])
  }

  /** The function has a symbol, and a symbol of that name and version is asked for, or none is. */
  ghost predicate SymbolWanted(t: Tunables, f: Function) {
    && f.symbol.Some?
    && (t.symbolsToKeep == []
        || exists i :: 0 <= i < |t.symbolsToKeep| && t.symbolsToKeep[i].name == f.symbol.value.name
            && t.symbolsToKeep[i].version == f.symbol.value.version)
  }

  lemma SymbolsByNameAndVersion(t: Tunables, f: Function)
    ensures KeptById(t, f) <==> SymbolWanted(t, f)
  {
    if f.symbol.Some? && f.symbol.value in t.symbolsToKeep {
      var i :| 0 <= i < |t.symbolsToKeep| && t.symbolsToKeep[i] == f.symbol.value;
      assert t.symbolsToKeep[i].name == f.symbol.value.name;
    }
    forall i | 0 <= i < |t.symbolsToKeep| && f.symbol.Some? && t.symbolsToKeep[i].name == f.symbol.value.name
        && t.symbolsToKeep[i].version == f.symbol.value.version
      ensures f.symbol.value in t.symbolsToKeep
    {
      assert t.symbolsToKeep[i] == f.symbol.value;
    }
  }

  /** The function has a symbol that is asked for, nothing that is to be suppressed matches it, and something
      that is to be kept does, unless nothing is. */
  ghost predicate Wanted(rx: Regex, t: Tunables, f: Function) {
    && SymbolWanted(t, f)
    && !SomeTextMatches(rx, t.suppress, f.qualifiedName)
    && (NoTextCompiles(rx, t.keep) || SomeTextMatches(rx, t.keep, f.qualifiedName))
  }

  /** Of the texts, exactly those are in force that are regular expressions. */
  lemma {:induction false} CompiledTexts(rx: Regex, texts: seq<string>, name: string)
    ensures SomeMatch(rx, Compiled(rx, texts), name) <==> SomeTextMatches(rx, texts, name)
    ensures Compiled(rx, texts) == [] <==> NoTextCompiles(rx, texts)
  {
    if texts != [] {
      var n := |texts| - 1;
      CompiledTexts(rx, texts[..n], name);
      CompiledLast(rx, texts, n, name);
      assert NoTextCompiles(rx, texts) <==> NoTextCompiles(rx, texts[..n]) && !rx.compiles(texts[n]);
    }
  }

  lemma CompiledLast(rx: Regex, texts: seq<string>, n: nat, name: string)
    requires |texts| == n + 1
    ensures SomeTextMatches(rx, texts, name)
       <==> SomeTextMatches(rx, texts[..n], name) || (rx.compiles(texts[n]) && rx.matches(texts[n], name))
    ensures SomeMatch(rx, Compiled(rx, texts), name)
       <==> SomeMatch(rx, Compiled(rx, texts[..n]), name) || (rx.compiles(texts[n]) && rx.matches(texts[n], name))
  {
    var before := Compiled(rx, texts[..n]);
    if SomeTextMatches(rx, texts[..n], name) {
      var i :| 0 <= i < n && rx.compiles(texts[..n][i]) && rx.matches(texts[..n][i], name);
      assert rx.compiles(texts[i]) && rx.matches(texts[i], name);
    }
    if SomeMatch(rx, before, name) {
      var i :| 0 <= i < |before| && rx.matches(before[i], name);
      assert Compiled(rx, texts)[i] == before[i];
    }
    if rx.compiles(texts[n]) && rx.matches(texts[n], name) {
      assert Compiled(rx, texts)[|before|] == texts[n];
    }
  }

  /** A builder that has compiled nothing yet keeps what is wanted. */
  lemma KeptAtFirst(rx: Regex, e: Exported, t: Tunables, f: Function)
    requires e.suppress == [] && e.keep == []
    ensures Kept(rx, e, t, f) <==> Wanted(rx, t, f)
  {
    hide SomeMatch, SomeTextMatches, NoTextCompiles, KeptById, SymbolWanted;
    SymbolsByNameAndVersion(t, f);
    CompiledTexts(rx, t.suppress, f.qualifiedName);
    CompiledTexts(rx, t.keep, f.qualifiedName);
  }

  /** With the same tunables throughout, the answer about a function is always the same. */
  lemma {:induction false} SameAnswer(rx: Regex, steps: seq<Step>, t: Tunables, f: Function)
    requires forall i :: 0 <= i < |steps| ==> steps[i].t == t
    ensures Kept(rx, Run(rx, steps), t, f) <==> Wanted(rx, t, f)
  {
    hide Stepped, SomeMatch, KeptById, Wanted, Compiled;
    if steps == [] {
      KeptAtFirst(rx, Run(rx, []), t, f);
    } else {
      var n := |steps| - 1;
      SameAnswer(rx, steps[..n], t, f);
      SteppedCompiles(rx, Run(rx, steps[..n]), steps[n]);
    }
  }

  /** Step i adds a public function that is wanted, and none of its identifier was added before. */
  ghost predicate FirstWanted(rx: Regex, steps: seq<Step>, t: Tunables, i: nat) {
    && i < |steps| && steps[i].Add? && steps[i].f.isPublic && Wanted(rx, t, steps[i].f)
    && forall j :: 0 <= j < i && steps[j].Add? && steps[j].f.isPublic && Wanted(rx, t, steps[j].f) ==>
         steps[j].f.id != steps[i].f.id
  }

  /** When the user asks for the same all along, a function is exported if and only if it is the first public
      one of its identifier that is wanted. */
  lemma SameTunablesExport(rx: Regex, steps: seq<Step>, t: Tunables, f: Function)
    requires forall i :: 0 <= i < |steps| ==> steps[i].t == t
    ensures f in Run(rx, steps).fns <==> exists i: nat :: FirstWanted(rx, steps, t, i) && steps[i].f == f
  {
    hide Run, Kept, Wanted;
    RunExports(rx, steps, f);
    forall i: nat, g | i < |steps|
      ensures KeptIn(rx, steps, i, g) <==> Wanted(rx, t, g)
    {
      SameAnswer(rx, steps[..i], t, g);
    }
    forall i: nat
      ensures FirstWanted(rx, steps, t, i) <==> FirstEligible(rx, steps, i)
      ensures FirstWanted(rx, steps, t, i) ==> Survives(rx, steps, i)
    {
    }
  }

  // ----- The builder

  class ExportedDeclsBuilder {
    const rx: Regex
    var fns: seq<Function>
    var fnsMap: map<string, Function>
    var compiledSuppress: seq<string>
    var compiledKeep: seq<string>

    constructor (rx: Regex)
      ensures this.rx == rx && Value() == Run(rx, [])
    {
      this.rx := rx;
      fns, fnsMap, compiledSuppress, compiledKeep := [], map[], [], [];
    }

    ghost function Value(): Exported
      reads this
    {
      Exported(fns, fnsMap, compiledSuppress, compiledKeep)
    }

    /** The loop over the expressions that compiles them. */
    method Compile(texts: seq<string>) returns (regexes: seq<string>)
      ensures regexes == Compiled(rx, texts)
    {
      regexes := [];
      for i := 0 to |texts|
        invariant regexes == Compiled(rx, texts[..i])
      {
        assert texts[..i + 1][..i] == texts[..i];
        if rx.compiles(texts[i]) {
          regexes := regexes + [texts[i]];
        }
      }
      assert texts[..|texts|] == texts;
    }

    method CompiledRegexFnsSuppress(t: Tunables) returns (regexes: seq<string>)
      modifies `compiledSuppress
      ensures regexes == compiledSuppress == InForce(rx, old(compiledSuppress), t.suppress)
    {
      if |compiledSuppress| == 0 {
        compiledSuppress := Compile(t.suppress);
      }
      regexes := compiledSuppress;
    }

    method CompiledRegexFnsKeep(t: Tunables) returns (regexes: seq<string>)
      modifies `compiledKeep
      ensures regexes == compiledKeep == InForce(rx, old(compiledKeep), t.keep)
    {
      if |compiledKeep| == 0 {
        compiledKeep := Compile(t.keep);
      }
      regexes := compiledKeep;
    }

    method KeepWrtId(t: Tunables, f: Function) returns (keep: bool)
      ensures keep <==> KeptById(t, f)
      ensures keep <==> SymbolWanted(t, f)
    {
      keep := true;
      SymbolsByNameAndVersion(t, f);
      if f.symbol.Some? {
        var sym := f.symbol.value;
        if |t.symbolsToKeep| != 0 {
          keep := false;
        }
        if !keep {
          for i := 0 to |t.symbolsToKeep|
            invariant !keep && sym !in t.symbolsToKeep[..i]
          {
            if t.symbolsToKeep[i].name == sym.name && t.symbolsToKeep[i].version == sym.version {
              keep := true;
              break;
            }
          }
        }
      } else {
        keep := false;
      }
    }

    method KeepWrtRegexToSuppress(t: Tunables, f: Function) returns (keep: bool)
      modifies `compiledSuppress
      ensures compiledSuppress == InForce(rx, old(compiledSuppress), t.suppress)
      ensures keep <==> !SomeMatch(rx, compiledSuppress, f.qualifiedName)
      ensures old(compiledSuppress) == [] ==> (keep <==> !SomeTextMatches(rx, t.suppress, f.qualifiedName))
    {
      keep := true;
      CompiledTexts(rx, t.suppress, f.qualifiedName);
      var regexes := CompiledRegexFnsSuppress(t);
      for i := 0 to |regexes|
        invariant keep && forall j :: 0 <= j < i ==> !rx.matches(regexes[j], f.qualifiedName)
      {
        if rx.matches(regexes[i], f.qualifiedName) {
          keep := false;
          break;
        }
      }
    }

    method KeepWrtRegexToKeep(t: Tunables, f: Function) returns (keep: bool)
      modifies `compiledKeep
      ensures compiledKeep == InForce(rx, old(compiledKeep), t.keep)
      ensures keep <==> compiledKeep == [] || SomeMatch(rx, compiledKeep, f.qualifiedName)
      ensures old(compiledKeep) == [] ==>
                (keep <==> NoTextCompiles(rx, t.keep) || SomeTextMatches(rx, t.keep, f.qualifiedName))
    {
      keep := true;
      CompiledTexts(rx, t.keep, f.qualifiedName);
      var regexes := CompiledRegexFnsKeep(t);
      if |regexes| != 0 {
        keep := false;
      }
      if !keep {
        for i := 0 to |regexes|
          invariant !keep && forall j :: 0 <= j < i ==> !rx.matches(regexes[j], f.qualifiedName)
        {
          if rx.matches(regexes[i], f.qualifiedName) {
            keep := true;
            break;
          }
        }
      }
    }

    /** All three tests, one after the other, up to the first one that fails. */
    method Keep(t: Tunables, f: Function) returns (keep: bool)
      modifies `compiledSuppress, `compiledKeep
      ensures keep <==> Kept(rx, old(Value()), t, f)
      ensures Value() == Asked(rx, old(Value()), t, f)
      ensures old(compiledSuppress) == [] && old(compiledKeep) == [] ==> (keep <==> Wanted(rx, t, f))
    {
      hide KeptById, SomeMatch, Wanted;
      if compiledSuppress == [] && compiledKeep == [] {
        KeptAtFirst(rx, Value(), t, f);
      }
      keep := KeepWrtId(t, f);
      if keep {
        keep := KeepWrtRegexToSuppress(t, f);
        if keep {
          keep := KeepWrtRegexToKeep(t, f);
        }
      }
    }

    method AddFnToExported(fn: Function)
      modifies `fns, `fnsMap
      ensures fn.id in old(fnsMap) ==> Value() == old(Value())
      ensures fn.id !in old(fnsMap) ==>
                Value() == old(Value()).(fns := old(fns) + [fn], fnsMap := old(fnsMap)[fn.id := fn])
    {
      if fn.id !in fnsMap {
        fns := fns + [fn];
        fnsMap := fnsMap[fn.id := fn];
      }
    }

    /** Functions have an identifier when they are in the public symbol table. */
    method MaybeAddFnToExportedFns(fn: Function, t: Tunables)
      requires fn.isPublic ==> fn.id != ""
      modifies this
      ensures Value() == Stepped(rx, old(Value()), Add(fn, t))
    {
      hide Kept, Asked;
      if !fn.isPublic {
        return;
      }
      if fn.id in fnsMap {
        return;
      }
      var keep := Keep(t, fn);
      if keep {
        AddFnToExported(fn);
      }
    }

    method MaybeDropSomeExportedDecls(t: Tunables)
      modifies `fns, `compiledSuppress, `compiledKeep
      ensures Value() == Stepped(rx, old(Value()), Drop(t))
    {
      hide Kept, Asked;
      var fnsToKeep: seq<Function> := [];
      for i := 0 to |fns|
        invariant fns == old(fns) && fnsMap == old(fnsMap)
        invariant Value().(fns := fnsToKeep) == Filtered(rx, old(Value()), t, fns[..i])
      {
        assert fns[..i + 1][..i] == fns[..i];
        AnswersWithoutFns(rx, Value(), fnsToKeep, fnsMap, t, fns[i]);
        var keep := Keep(t, fns[i]);
        if keep {
          fnsToKeep := fnsToKeep + [fns[i]];
        }
      }
      assert fns[..|fns|] == fns;
      fns := fnsToKeep;
    }
  }

  /** Compare the functions that two corpora export.  Equal functions are taken to have the same identifier;
      that identifiers are unique is what the two builders made sure of. */
  method CompareFunctions(first: ExportedDeclsBuilder, second: ExportedDeclsBuilder, eq: (Function, Function) -> bool,
                          ghost steps1: seq<Step>, ghost steps2: seq<Step>)
    returns (tables: LookupTables<string, Function>)
    requires first.Value() == Run(first.rx, steps1) && second.Value() == Run(second.rx, steps2)
    requires EqualHaveSameKey(first.fns, second.fns, Id(), eq)
    ensures fresh(tables)
    ensures tables.Value() == Expected(Table(first.fns, Id()), Table(second.fns, Id()), eq)
  {
    hide Expected, Table;
    RunValid(first.rx, steps1);
    RunValid(second.rx, steps2);
    tables := Compare(first.fns, second.fns, Id(), eq);
  }
}
