/** The `no-unused-imports` rule: collect import bindings and identifier uses during the walk, then at
    `Program:exit` group the unused bindings by statement and report each statement or specifier. */
module UnusedImports {
  import opened Wrappers
  import opened Seqs
  import opened OrderedMap
  import opened Ast
  import opened Edits

  /** `{ node, spec }`: the declaration and the specifier that bound a name. */
  datatype Binding = Binding(node: ImportDecl, spec: Specifier)

  /** `importedIdentifiers` (keyed by local name) and `usedIdentifiers`. */
  datatype State = State(imported: Entries<string, Binding>, used: set<string>)

  const Initial: State := State([], {})

  /** The specifiers the `if / else if` chain records: default, named and namespace ones. */
  predicate Recorded(s: Specifier)
  {
    s.kind != OtherSpecifier
  }

  /** `s` is one of the specifiers of `d`. */
  predicate Owns(d: ImportDecl, s: Specifier)
  {
    d.specifiers.Some? && s in d.specifiers.value
  }

  /** The `importedIdentifiers.set(spec.local.name, { node, spec })` calls made for `specs`, in order. */
  function SpecifierBindings(decl: ImportDecl, specs: seq<Specifier>): (r: seq<(string, Binding)>)
    ensures forall p :: p in r <==>
      p.1.node == decl && p.1.spec in specs && Recorded(p.1.spec) && p.0 == p.1.spec.local
  {
    if |specs| == 0 then []
    else
      var head := if Recorded(specs[0]) then [(specs[0].local, Binding(decl, specs[0]))] else [];
      var r := head + SpecifierBindings(decl, specs[1..]);
      assert forall s :: s in specs <==> s == specs[0] || s in specs[1..];
      r
  }

  // ---------------------------------------------------------------- accumulation

  /** The `ImportDeclaration` visitor of src/rules/no-unused-imports.ts: a side-effect import (no or empty
      `specifiers`) returns before recording anything; otherwise every specifier is recorded. */
  function Collect(st: State, decl: ImportDecl): (r: State)
    ensures decl.specifiers == None || decl.specifiers == Some([]) ==> r == st
    ensures r.used == st.used
  {
    if decl.specifiers.None? || |decl.specifiers.value| == 0 then st
    else st.(imported := SetAll(st.imported, SpecifierBindings(decl, decl.specifiers.value)))
  }

  /** The `ImportDeclaration` visitor of src/plugin.ts: `node.specifiers?.forEach(...)`, no early return. */
  function CollectOptionalChain(st: State, decl: ImportDecl): State
  {
    match decl.specifiers
    case None => st
    case Some(specs) => st.(imported := SetAll(st.imported, SpecifierBindings(decl, specs)))
  }

  /** The two copies of the collector behave identically: iterating an empty list records nothing. */
  lemma CollectorsAgree(st: State, decl: ImportDecl)
    ensures CollectOptionalChain(st, decl) == Collect(st, decl)
  {
  }

  /** A name is set by a declaration exactly when one of its recorded specifiers binds it. */
  lemma BoundBySpecifier(decl: ImportDecl, specs: seq<Specifier>, name: string)
    ensures name in Keys(SpecifierBindings(decl, specs)) <==>
            exists s :: s in specs && Recorded(s) && s.local == name
  {
    var bs := SpecifierBindings(decl, specs);
    KeysMember(bs, name);
    if exists s :: s in specs && Recorded(s) && s.local == name {
      var s :| s in specs && Recorded(s) && s.local == name;
      assert (name, Binding(decl, s)) in bs;
    }
  }

  /** After visiting a declaration, a name bound by one of its recorded specifiers maps to this
      declaration and to the LAST such specifier; every other name keeps its binding; new names are
      appended in specifier order. */
  lemma CollectRecords(st: State, decl: ImportDecl, name: string)
    requires decl.specifiers.Some?
    ensures
      var bs := SpecifierBindings(decl, decl.specifiers.value);
      && Lookup(Collect(st, decl).imported, name) ==
           (if exists s :: s in decl.specifiers.value && Recorded(s) && s.local == name
            then LastFor(bs, name) else Lookup(st.imported, name))
      && Keys(Collect(st, decl).imported) == AppendNew(Keys(st.imported), Keys(bs))
  {
    var bs := SpecifierBindings(decl, decl.specifiers.value);
    BoundBySpecifier(decl, decl.specifiers.value, name);
    SetAllLookup(st.imported, bs, name);
    SetAllKeys(st.imported, bs);
  }

  /** The `Identifier` visitor's test: an identifier directly under an import or export specifier
      names a binding; every other identifier reads one. */
  predicate CountsAsUse(ident: Identifier)
  {
    ident.parent.None? || !ident.parent.value.IsSpecifier()
  }

  /** One visitor callback. */
  function Visit(st: State, e: Event): State
  {
    match e
    case VisitImportDeclaration(decl) => Collect(st, decl)
    case VisitIdentifier(ident) => if CountsAsUse(ident) then st.(used := st.used + {ident.name}) else st
    case VisitJsxIdentifier(name) => st.(used := st.used + {name})
    case _ => st
  }

  /** The host's walk, delivered as the sequence of callbacks it makes. */
  function Walk(st: State, events: seq<Event>): State
    decreases |events|
  {
    if |events| == 0 then st else Walk(Visit(st, events[0]), events[1..])
  }

  /** A walk is its first callback followed by the walk of the rest. */
  lemma WalkCons(st: State, e: Event, rest: seq<Event>)
    ensures Walk(st, [e] + rest) == Walk(Visit(st, e), rest)
  {
    assert ([e] + rest)[1..] == rest;
  }

  /** `e` reads the name `name`: an identifier outside import and export specifiers, or any JSX identifier. */
  predicate IsUseOf(e: Event, name: string)
  {
    || (e.VisitIdentifier? && e.ident.name == name &&
        (e.ident.parent.None? || !(e.ident.parent.value in
          {ImportSpecifierParent, ImportDefaultSpecifierParent, ImportNamespaceSpecifierParent, ExportSpecifierParent})))
    || e == VisitJsxIdentifier(name)
  }

  /** A name is in the used set at exit exactly when some callback of the walk used it, wherever that
      callback falls relative to the import. */
  lemma {:induction false} UsedIffSomeUse(st: State, events: seq<Event>, name: string)
    ensures name in Walk(st, events).used <==>
      name in st.used || exists i :: 0 <= i < |events| && IsUseOf(events[i], name)
    decreases |events|
  {
    if |events| > 0 {
      UsedIffSomeUse(Visit(st, events[0]), events[1..], name);
      assert name in Visit(st, events[0]).used <==> name in st.used || IsUseOf(events[0], name);
      if exists i :: 0 <= i < |events| && IsUseOf(events[i], name) {
        var i :| 0 <= i < |events| && IsUseOf(events[i], name);
        if i > 0 {
          assert IsUseOf(events[1..][i - 1], name);
        }
      }
      if exists i :: 0 <= i < |events[1..]| && IsUseOf(events[1..][i], name) {
        var i :| 0 <= i < |events[1..]| && IsUseOf(events[1..][i], name);
        assert IsUseOf(events[i + 1], name);
      }
    }
  }

  /** The `set` calls one callback makes on `importedIdentifiers`, in order. */
  function EventBindings(e: Event): seq<(string, Binding)>
  {
    if e.VisitImportDeclaration? && e.decl.specifiers.Some?
    then SpecifierBindings(e.decl, e.decl.specifiers.value) else []
  }

  /** The `set` calls the whole walk makes on `importedIdentifiers`, in order. */
  function WalkBindings(events: seq<Event>): seq<(string, Binding)>
    decreases |events|
  {
    if |events| == 0 then [] else EventBindings(events[0]) + WalkBindings(events[1..])
  }

  lemma VisitImported(st: State, e: Event)
    ensures Visit(st, e).imported == SetAll(st.imported, EventBindings(e))
  {
    if e.VisitImportDeclaration? && e.decl.specifiers.Some? && |e.decl.specifiers.value| == 0 {
      assert EventBindings(e) == [];
    }
  }

  /** The walk performs exactly the `set` calls of its callbacks, in order. */
  lemma {:induction false} WalkIsSetAll(st: State, events: seq<Event>)
    ensures Walk(st, events).imported == SetAll(st.imported, WalkBindings(events))
    decreases |events|
  {
    if |events| > 0 {
      WalkIsSetAll(Visit(st, events[0]), events[1..]);
      VisitImported(st, events[0]);
      SetAllAppend(st.imported, EventBindings(events[0]), WalkBindings(events[1..]));
    }
  }

  /** Bindings are keyed by name: at exit each imported name holds its LAST binding in the walk, and
      names appear in order of their first binding. */
  lemma WalkImported(events: seq<Event>, name: string)
    ensures Lookup(Walk(Initial, events).imported, name) == LastFor(WalkBindings(events), name)
    ensures Keys(Walk(Initial, events).imported) == AppendNew([], Keys(WalkBindings(events)))
  {
    WalkIsSetAll(Initial, events);
    SetAllLookup([], WalkBindings(events), name);
    SetAllKeys([], WalkBindings(events));
  }

  // ---------------------------------------------------------------- invariant

  /** A recorded pair is keyed by its specifier's local name, and the specifier is one of its declaration's
      specifiers. */
  predicate Consistent(p: (string, Binding))
  {
    && p.0 == p.1.spec.local
    && Owns(p.1.node, p.1.spec)
  }

  predicate Inv(st: State)
  {
    && Valid(st.imported)
    && forall p :: p in st.imported ==> Consistent(p)
  }

  /** The walk establishes the invariant. */
  lemma {:induction false} WalkKeepsInv(st: State, events: seq<Event>)
    requires Inv(st)
    ensures Inv(Walk(st, events))
    decreases |events|
  {
    if |events| > 0 {
      var e := events[0];
      if e.VisitImportDeclaration? && e.decl.specifiers.Some? && |e.decl.specifiers.value| > 0 {
        var bs := SpecifierBindings(e.decl, e.decl.specifiers.value);
        SetAllValid(st.imported, bs);
        SetAllMembers(st.imported, bs);
      }
      WalkKeepsInv(Visit(st, e), events[1..]);
    }
  }

  // ---------------------------------------------------------------- Program:exit

  type GroupMap = Entries<ImportDecl, seq<Specifier>>

  /** The loop over `importedIdentifiers` that pushes every unused specifier onto the group of its
      declaration in `importGroups`. */
  function CollectGroups(groups: GroupMap, entries: Entries<string, Binding>, used: set<string>): GroupMap
    decreases |entries|
  {
    if |entries| == 0 then groups
    else
      var info := entries[0].1;
      var groups' := if entries[0].0 !in used then Push(groups, info.node, info.spec) else groups;
      CollectGroups(groups', entries[1..], used)
  }

  /** The (declaration, specifier) pairs of the unused bindings, in map order. */
  function UnusedPairs(entries: Entries<string, Binding>, used: set<string>): (r: seq<(ImportDecl, Specifier)>)
    ensures forall p :: p in r <==> exists n :: (n, Binding(p.0, p.1)) in entries && n !in used
    decreases |entries|
  {
    if |entries| == 0 then []
    else
      var info := entries[0].1;
      var rest := UnusedPairs(entries[1..], used);
      assert forall q :: q in entries <==> q == entries[0] || q in entries[1..];
      if entries[0].0 !in used then [(info.node, info.spec)] + rest else rest
  }

  /** The loop is a group-by of the unused pairs. */
  lemma {:induction false} CollectGroupsIsGrouping(groups: GroupMap, entries: Entries<string, Binding>, used: set<string>)
    ensures CollectGroups(groups, entries, used) == PushAll(groups, UnusedPairs(entries, used))
    decreases |entries|
  {
    if |entries| > 0 {
      var info := entries[0].1;
      var groups' := if entries[0].0 !in used then Push(groups, info.node, info.spec) else groups;
      CollectGroupsIsGrouping(groups', entries[1..], used);
    }
  }

  /** The specifiers of the unused pairs are pairwise distinct, since they bind distinct names. */
  lemma {:induction false} UnusedSpecifiersDistinct(entries: Entries<string, Binding>, used: set<string>)
    requires Valid(entries)
    requires forall p :: p in entries ==> Consistent(p)
    ensures Distinct(Values(UnusedPairs(entries, used)))
    decreases |entries|
  {
    if |entries| > 0 {
      ValidTail(entries);
      assert forall p :: p in entries[1..] ==> p in entries;
      UnusedSpecifiersDistinct(entries[1..], used);
      UnusedSpecifiersStep(entries, used);
    }
  }

  /** One step of the induction: the first entry's specifier is new to the pairs after it. */
  lemma UnusedSpecifiersStep(entries: Entries<string, Binding>, used: set<string>)
    requires |entries| > 0 && Valid(entries)
    requires forall p :: p in entries ==> Consistent(p)
    requires Distinct(Values(UnusedPairs(entries[1..], used)))
    ensures Distinct(Values(UnusedPairs(entries, used)))
  {
    var up := UnusedPairs(entries[1..], used);
    if entries[0].0 !in used {
      var head := (entries[0].1.node, entries[0].1.spec);
      assert head.1 !in Values(up) by {
        forall j | 0 <= j < |up|
          ensures Values(up)[j] != head.1
        {
          LaterSpecifierDiffers(entries, used, up[j]);
        }
      }
      DistinctCons(head.1, Values(up));
      ValuesCons(head, up);
      UnusedPairsCons(entries, used);
    }
  }

  /** One unfolding of `UnusedPairs`. */
  lemma UnusedPairsCons(entries: Entries<string, Binding>, used: set<string>)
    requires |entries| > 0 && entries[0].0 !in used
    ensures UnusedPairs(entries, used) == [(entries[0].1.node, entries[0].1.spec)] + UnusedPairs(entries[1..], used)
  {
  }

  /** An unused pair recorded after the first entry carries another specifier than the first entry's. */
  lemma LaterSpecifierDiffers(entries: Entries<string, Binding>, used: set<string>, q: (ImportDecl, Specifier))
    requires |entries| > 0 && Valid(entries)
    requires forall p :: p in entries ==> Consistent(p)
    requires q in UnusedPairs(entries[1..], used)
    ensures q.1 != entries[0].1.spec
  {
    var n :| (n, Binding(q.0, q.1)) in entries[1..] && n !in used;
    var k :| 0 <= k < |entries[1..]| && entries[1..][k] == (n, Binding(q.0, q.1));
    assert entries[k + 1] == (n, Binding(q.0, q.1));
    assert Keys(entries)[k + 1] == n && Keys(entries)[0] == entries[0].0;
    assert Consistent(entries[k + 1]) && Consistent(entries[0]);
  }

  /** `importGroups` at exit. */
  function Groups(st: State): GroupMap
  {
    CollectGroups([], st.imported, st.used)
  }

  /** Resolution: the groups are the declarations owning an unused binding, in order of their first
      unused binding, and each holds exactly the unused specifiers recorded for it, in map order. */
  lemma GroupsAreUnusedBindings(st: State)
    ensures Keys(Groups(st)) == AppendNew([], Keys(UnusedPairs(st.imported, st.used)))
    ensures forall d :: Lookup(Groups(st), d) ==
                        (if d in Keys(UnusedPairs(st.imported, st.used)) then Some(ValuesFor(UnusedPairs(st.imported, st.used), d)) else None)
    ensures Valid(Groups(st))
  {
    var up := UnusedPairs(st.imported, st.used);
    CollectGroupsIsGrouping([], st.imported, st.used);
    PushAllKeys([], up);
    PushAllValid([], up);
    forall d
      ensures Lookup(Groups(st), d) == (if d in Keys(up) then Some(ValuesFor(up, d)) else None)
    {
      var empty: GroupMap := [];
      PushAllLookup(empty, up, d);
      assert Lookup(empty, d) == None;
      assert [] + ValuesFor(up, d) == ValuesFor(up, d);
    }
  }

  /** What an exit-time group looks like when the invariant holds: a non-empty list of distinct specifiers
      of its declaration, each binding an unused name that is recorded with exactly that binding. */
  predicate GoodGroup(st: State, d: ImportDecl, specs: seq<Specifier>)
  {
    && |specs| > 0
    && Distinct(specs)
    && (forall s :: s in specs ==> Owns(d, s) && s.local !in st.used && (s.local, Binding(d, s)) in st.imported)
    && d.specifiers.Some?
  }

  /** Every exit-time group is good. */
  lemma GroupsAreGood(st: State, i: nat)
    requires Inv(st) && i < |Groups(st)|
    ensures GoodGroup(st, Groups(st)[i].0, Groups(st)[i].1)
  {
    var g := Groups(st);
    var up := UnusedPairs(st.imported, st.used);
    var (d, specs) := g[i];
    GroupsAreUnusedBindings(st);
    LookupEntry(g, i);
    assert d in Keys(g) by { assert Keys(g)[i] == d; }
    assert specs == ValuesFor(up, d);
    var j :| 0 <= j < |up| && Keys(up)[j] == d;
    assert up[j] in up;
    assert up[j].1 in specs;
    UnusedSpecifiersDistinct(st.imported, st.used);
    ValuesForDistinct(up, d);
    forall s | s in specs
      ensures Owns(d, s) && s.local !in st.used && (s.local, Binding(d, s)) in st.imported
    {
      assert (d, s) in up;
      var n :| (n, Binding(d, s)) in st.imported && n !in st.used;
      assert Consistent((n, Binding(d, s)));
    }
    var n :| (n, Binding(d, up[j].1)) in st.imported && n !in st.used;
    assert Consistent((n, Binding(d, up[j].1)));
  }

  /** The specifier ranges of a declaration. */
  function SpecifierRanges(specs: seq<Specifier>): (r: seq<Range>)
    ensures |r| == |specs|
    ensures forall i :: 0 <= i < |specs| ==> r[i] == specs[i].range
  {
    seq(|specs|, i requires 0 <= i < |specs| => specs[i].range)
  }

  /** The fix callback of a per-specifier report. A single-specifier statement is removed whole;
      otherwise the specifier is cut out together with one adjacent separator. */
  function SpecifierFix(decl: ImportDecl, spec: Specifier): (r: Fix)
    requires Owns(decl, spec)
    ensures |decl.specifiers.value| == 1 ==> r == RemoveNode(decl.id)
    ensures |decl.specifiers.value| >= 2 ==>
      var specs := decl.specifiers.value;
      var i := IndexOf(specs, spec);
      && r.RemoveRange?
      && (i < |specs| - 1 ==> r == RemoveRange(spec.range.start, specs[i + 1].range.start))
      && (i == |specs| - 1 ==> r == RemoveRange(specs[i - 1].range.end, spec.range.end))
      && (Ordered(SpecifierRanges(specs)) ==>
            && r.start <= spec.range.start && spec.range.end <= r.end && r.start < r.end
            && forall j :: 0 <= j < |specs| && j != i ==>
                 specs[j].range.end <= r.start || r.end <= specs[j].range.start)
  {
    var specifiers := decl.specifiers.value;
    var index := IndexOf(specifiers, spec);
    if |specifiers| == 1 then RemoveNode(decl.id)
    else
      var cut := CutRange(spec.range, SpecifierRanges(specifiers), index);
      RemoveRange(cut.start, cut.end)
  }

  predicate GroupOwned(d: ImportDecl, specs: seq<Specifier>)
  {
    forall s :: s in specs ==> Owns(d, s)
  }

  /** One report per unused specifier, in order. */
  function SpecifierReports(d: ImportDecl, specs: seq<Specifier>): (r: seq<Report>)
    requires GroupOwned(d, specs)
    ensures |r| == |specs|
    ensures forall i :: 0 <= i < |specs| ==>
      r[i] == Report(specs[i].id, ImportMessage(specs[i].local), SpecifierFix(d, specs[i]))
  {
    if |specs| == 0 then []
    else [Report(specs[0].id, ImportMessage(specs[0].local), SpecifierFix(d, specs[0]))] + SpecifierReports(d, specs[1..])
  }

  /** The reports for one group: the whole statement when every specifier is unused, otherwise one per
      unused specifier. */
  function GroupReports(d: ImportDecl, specs: seq<Specifier>): seq<Report>
    requires GroupOwned(d, specs)
  {
    if d.specifiers.Some? && |d.specifiers.value| == |specs| then
      [Report(d.id, WholeImportMessage, RemoveNode(d.id))]
    else SpecifierReports(d, specs)
  }

  /** The two branches exclude each other: a group yields either exactly one whole-statement report or
      only per-specifier reports, one for each unused specifier. */
  lemma GroupReportsShape(d: ImportDecl, specs: seq<Specifier>)
    requires GroupOwned(d, specs)
    ensures var r := GroupReports(d, specs);
      if d.specifiers.Some? && |d.specifiers.value| == |specs| then
        r == [Report(d.id, WholeImportMessage, RemoveNode(d.id))]
      else
        && |r| == |specs|
        && forall i :: 0 <= i < |r| ==>
             r[i].message == ImportMessage(specs[i].local) && r[i].message != WholeImportMessage
             && r[i].node == specs[i].id
  {
    forall i | 0 <= i < |specs| {
      ImportMessageInjective(specs[i].local, specs[i].local);
    }
  }

  predicate AllOwned(g: GroupMap)
  {
    forall i :: 0 <= i < |g| ==> GroupOwned(g[i].0, g[i].1)
  }

  /** The loop over `importGroups`. */
  function ReportGroups(g: GroupMap): seq<Report>
    requires AllOwned(g)
    decreases |g|
  {
    if |g| == 0 then []
    else GroupReports(g[0].0, g[0].1) + ReportGroups(g[1..])
  }

  /** A report comes from exactly the groups it is listed under. */
  lemma {:induction false} ReportGroupsMember(g: GroupMap, r: Report)
    requires AllOwned(g)
    ensures r in ReportGroups(g) <==> exists i :: 0 <= i < |g| && r in GroupReports(g[i].0, g[i].1)
    decreases |g|
  {
    if |g| > 0 {
      ReportGroupsMember(g[1..], r);
      if exists i :: 0 <= i < |g[1..]| && r in GroupReports(g[1..][i].0, g[1..][i].1) {
        var i :| 0 <= i < |g[1..]| && r in GroupReports(g[1..][i].0, g[1..][i].1);
        assert g[1..][i] == g[i + 1];
      }
      if exists i :: 0 <= i < |g| && r in GroupReports(g[i].0, g[i].1) {
        var i :| 0 <= i < |g| && r in GroupReports(g[i].0, g[i].1);
        if i > 0 {
          assert g[1..][i - 1] == g[i];
        }
      }
    }
  }

  /** The reports of each group, group by group. */
  function GroupReportLists(g: GroupMap): (r: seq<seq<Report>>)
    requires AllOwned(g)
    ensures |r| == |g|
    ensures forall i :: 0 <= i < |g| ==> r[i] == GroupReports(g[i].0, g[i].1)
    decreases |g|
  {
    if |g| == 0 then []
    else [GroupReports(g[0].0, g[0].1)] + GroupReportLists(g[1..])
  }

  /** Order and count: the loop makes the reports of the first group, then those of the second, and so
      on, each group's in its own order. */
  lemma {:induction false} ReportGroupsFlatten(g: GroupMap)
    requires AllOwned(g)
    ensures ReportGroups(g) == Flatten(GroupReportLists(g))
    decreases |g|
  {
    if |g| > 0 {
      ReportGroupsFlatten(g[1..]);
      assert GroupReportLists(g)[1..] == GroupReportLists(g[1..]);
    }
  }

  /** The exit groups satisfy the precondition of the reporting loop. */
  lemma GroupsOwned(st: State)
    requires Inv(st)
    ensures AllOwned(Groups(st))
  {
    forall i | 0 <= i < |Groups(st)| {
      GroupsAreGood(st, i);
    }
  }

  /** `Program:exit`: the reports, in the order `context.report` is called. */
  function Finalize(st: State): seq<Report>
    requires Inv(st)
  {
    GroupsOwned(st);
    ReportGroups(Groups(st))
  }

  /** The group a report of `Program:exit` comes from. */
  lemma ReportOrigin(st: State, r: Report) returns (i: nat)
    requires Inv(st) && r in Finalize(st)
    ensures i < |Groups(st)|
    ensures GoodGroup(st, Groups(st)[i].0, Groups(st)[i].1)
    ensures GroupOwned(Groups(st)[i].0, Groups(st)[i].1)
    ensures r in GroupReports(Groups(st)[i].0, Groups(st)[i].1)
  {
    var g := Groups(st);
    GroupsOwned(st);
    ReportGroupsMember(g, r);
    i :| 0 <= i < |g| && r in GroupReports(g[i].0, g[i].1);
    GroupsAreGood(st, i);
  }

  /** Where a per-specifier report of a group comes from. */
  lemma PartialReportOrigin(d: ImportDecl, specs: seq<Specifier>, r: Report) returns (k: nat)
    requires GroupOwned(d, specs) && r in GroupReports(d, specs) && r.message != WholeImportMessage
    ensures !(d.specifiers.Some? && |d.specifiers.value| == |specs|)
    ensures k < |specs| && r == Report(specs[k].id, ImportMessage(specs[k].local), SpecifierFix(d, specs[k]))
  {
    var rs := SpecifierReports(d, specs);
    assert rs == GroupReports(d, specs);
    k :| 0 <= k < |rs| && rs[k] == r;
  }

  /** A group reports each of its specifiers, through the whole statement or individually. */
  lemma GroupCovers(d: ImportDecl, specs: seq<Specifier>, s: Specifier)
    requires GroupOwned(d, specs) && s in specs
    ensures || Report(d.id, WholeImportMessage, RemoveNode(d.id)) in GroupReports(d, specs)
            || Report(s.id, ImportMessage(s.local), SpecifierFix(d, s)) in GroupReports(d, specs)
  {
    if !(d.specifiers.Some? && |d.specifiers.value| == |specs|) {
      var rs := SpecifierReports(d, specs);
      var k :| 0 <= k < |specs| && specs[k] == s;
      assert rs[k] in rs;
    }
  }

  /** A whole-statement removal only ever targets a statement all of whose specifiers bind unused names. */
  lemma WholeRemovalIsSound(st: State, r: Report)
    requires Inv(st)
    requires r in Finalize(st) && r.message == WholeImportMessage
    ensures exists d: ImportDecl :: && r == Report(d.id, WholeImportMessage, RemoveNode(d.id))
                                     && d.specifiers.Some? && |d.specifiers.value| > 0
                                     && forall s :: s in d.specifiers.value ==> s.local !in st.used
  {
    var i := ReportOrigin(st, r);
    var (d, specs) := Groups(st)[i];
    GroupReportsShape(d, specs);
    assert d.specifiers.Some? && |d.specifiers.value| == |specs|;
    FillsWhole(specs, d.specifiers.value);
  }

  /** A per-specifier report names an unused binding, points at its specifier and carries that
      specifier's fix. */
  lemma PartialReportIsUnused(st: State, r: Report)
    requires Inv(st)
    requires r in Finalize(st) && r.message != WholeImportMessage
    ensures exists n, b :: && (n, b) in st.imported && n !in st.used && Owns(b.node, b.spec)
                           && r == Report(b.spec.id, ImportMessage(n), SpecifierFix(b.node, b.spec))
  {
    var i := ReportOrigin(st, r);
    var (d, specs) := Groups(st)[i];
    var k := PartialReportOrigin(d, specs, r);
    var s := specs[k];
    assert s in specs;
    assert (s.local, Binding(d, s)) in st.imported;
  }

  /** A name that is used somewhere is never the subject of a per-specifier report. */
  lemma UsedImportNeverReported(st: State, name: string)
    requires Inv(st) && name in st.used
    ensures forall r :: r in Finalize(st) ==> r.message != ImportMessage(name)
  {
    forall r | r in Finalize(st)
      ensures r.message != ImportMessage(name)
    {
      ImportMessageInjective(name, name);
      if r.message != WholeImportMessage {
        PartialReportIsUnused(st, r);
        var n, b :| && (n, b) in st.imported && n !in st.used && Owns(b.node, b.spec)
                    && r == Report(b.spec.id, ImportMessage(n), SpecifierFix(b.node, b.spec));
        ImportMessageInjective(n, name);
      }
    }
  }

  /** An unused recorded binding is among the unused pairs. */
  lemma UnusedPairOf(entries: Entries<string, Binding>, used: set<string>, name: string, b: Binding)
    requires (name, b) in entries && name !in used
    ensures (b.node, b.spec) in UnusedPairs(entries, used)
  {
    assert (name, Binding(b.node, b.spec)) in entries;
  }

  /** The exit group holding the specifier of an unused binding. */
  lemma GroupOf(st: State, name: string, b: Binding) returns (i: nat)
    requires Inv(st) && (name, b) in st.imported && name !in st.used
    ensures i < |Groups(st)| && Groups(st)[i].0 == b.node && b.spec in Groups(st)[i].1
  {
    var g := Groups(st);
    var up := UnusedPairs(st.imported, st.used);
    UnusedPairOf(st.imported, st.used, name, b);
    assert b.node in Keys(up) by {
      KeysMember(up, b.node);
    }
    var specs := ValuesFor(up, b.node);
    assert b.spec in specs;
    assert Lookup(g, b.node) == Some(specs) by {
      GroupsAreUnusedBindings(st);
    }
    i :| 0 <= i < |g| && g[i] == (b.node, specs);
  }

  /** Every unused binding is reported: its whole statement is removed, or its specifier gets a report
      of its own. */
  lemma EveryUnusedImportReported(st: State, name: string, b: Binding)
    requires Inv(st) && (name, b) in st.imported && name !in st.used
    ensures Owns(b.node, b.spec)
    ensures || Report(b.node.id, WholeImportMessage, RemoveNode(b.node.id)) in Finalize(st)
            || Report(b.spec.id, ImportMessage(name), SpecifierFix(b.node, b.spec)) in Finalize(st)
  {
    assert Consistent((name, b));
    var i := GroupOf(st, name, b);
    var g := Groups(st);
    GroupsOwned(st);
    GroupCovers(g[i].0, g[i].1, b.spec);
    ReportGroupsMember(g, Report(b.node.id, WholeImportMessage, RemoveNode(b.node.id)));
    ReportGroupsMember(g, Report(b.spec.id, ImportMessage(name), SpecifierFix(b.node, b.spec)));
  }

  /** The single-specifier fallback of the fix is never taken: a one-specifier statement with an unused
      binding always falls in the whole-statement branch, so every per-specifier fix is a range cut. */
  lemma SingleSpecifierFallbackUnreachable(st: State, r: Report)
    requires Inv(st)
    requires r in Finalize(st) && r.message != WholeImportMessage
    ensures r.fix.RemoveRange?
  {
    var i := ReportOrigin(st, r);
    var (d, specs) := Groups(st)[i];
    var k := PartialReportOrigin(d, specs, r);
    DistinctWithin(specs, d.specifiers.value);
  }

  /** Two different positions among the exit groups hold specifiers that bind different names. */
  lemma DistinctSpecifierNames(st: State, i1: nat, j1: nat, i2: nat, j2: nat)
    requires Inv(st) && i1 < |Groups(st)| && i2 < |Groups(st)|
    requires j1 < |Groups(st)[i1].1| && j2 < |Groups(st)[i2].1|
    requires i1 < i2 || (i1 == i2 && j1 < j2)
    ensures Groups(st)[i1].1[j1].local != Groups(st)[i2].1[j2].local
  {
    var g := Groups(st);
    var d1, specs1, d2, specs2 := g[i1].0, g[i1].1, g[i2].0, g[i2].1;
    GroupsAreGood(st, i1);
    GroupsAreGood(st, i2);
    var s1, s2 := specs1[j1], specs2[j2];
    assert s1 in specs1 && s2 in specs2;
    if s1.local == s2.local {
      KeyDetermines(st.imported, s1.local, Binding(d1, s1), Binding(d2, s2));
      if i1 != i2 {
        GroupsAreUnusedBindings(st);
      }
    }
  }

  /** Two reports at different positions of the exit groups: a per-specifier message differs from the
      other report's message, and two whole-statement reports come from different declarations. */
  lemma GroupMessagesDiffer(st: State, i1: nat, j1: nat, i2: nat, j2: nat)
    requires Inv(st) && i1 < |Groups(st)| && i2 < |Groups(st)|
    requires GroupOwned(Groups(st)[i1].0, Groups(st)[i1].1) && GroupOwned(Groups(st)[i2].0, Groups(st)[i2].1)
    requires j1 < |GroupReports(Groups(st)[i1].0, Groups(st)[i1].1)| && j2 < |GroupReports(Groups(st)[i2].0, Groups(st)[i2].1)|
    requires i1 < i2 || (i1 == i2 && j1 < j2)
    ensures var r1, r2 := GroupReports(Groups(st)[i1].0, Groups(st)[i1].1)[j1], GroupReports(Groups(st)[i2].0, Groups(st)[i2].1)[j2];
      && (r1.message != WholeImportMessage || r2.message != WholeImportMessage ==> r1.message != r2.message)
      && (r1.message == WholeImportMessage && r2.message == WholeImportMessage ==> Groups(st)[i1].0 != Groups(st)[i2].0)
  {
    var g := Groups(st);
    var r1, r2 := GroupReports(g[i1].0, g[i1].1)[j1], GroupReports(g[i2].0, g[i2].1)[j2];
    GroupReportsShape(g[i1].0, g[i1].1);
    GroupReportsShape(g[i2].0, g[i2].1);
    if r1.message == WholeImportMessage && r2.message == WholeImportMessage {
      GroupsAreUnusedBindings(st);
      assert Keys(g)[i1] == g[i1].0 && Keys(g)[i2] == g[i2].0;
    } else if r1.message != WholeImportMessage && r2.message != WholeImportMessage {
      DistinctSpecifierNames(st, i1, j1, i2, j2);
      ImportMessageInjective(g[i1].1[j1].local, g[i2].1[j2].local);
    }
  }

  /** At most once per pass: a per-specifier message is carried by one report only, and two
      whole-statement reports come from different groups, whose declarations differ. */
  lemma NoImportReportedTwice(st: State, k1: nat, k2: nat)
    requires Inv(st) && k1 < k2 < |Finalize(st)|
    ensures AllOwned(Groups(st)) && Finalize(st) == Flatten(GroupReportLists(Groups(st)))
    ensures Finalize(st)[k1].message != WholeImportMessage || Finalize(st)[k2].message != WholeImportMessage ==>
              Finalize(st)[k1].message != Finalize(st)[k2].message
    ensures Finalize(st)[k1].message == WholeImportMessage && Finalize(st)[k2].message == WholeImportMessage ==>
              var lists := GroupReportLists(Groups(st));
              Groups(st)[Locate(lists, k1).0].0 != Groups(st)[Locate(lists, k2).0].0
  {
    var g := Groups(st);
    GroupsOwned(st);
    ReportGroupsFlatten(g);
    var lists := GroupReportLists(g);
    var (i1, j1) := Locate(lists, k1);
    var (i2, j2) := Locate(lists, k2);
    LocateInOrder(lists, k1, k2);
    GroupMessagesDiffer(st, i1, j1, i2, j2);
  }

  /** The whole rule over a walk. */
  function Lint(events: seq<Event>): seq<Report>
  {
    WalkKeepsInv(Initial, events);
    Finalize(Walk(Initial, events))
  }

  /** `Program:exit` reads the collected state and builds fresh groups: it leaves the state as it was,
      so running it a second time appends the same reports again. */
  function ProgramExit(st: State, out: seq<Report>): (r: (State, seq<Report>))
    requires Inv(st)
    ensures r.0 == st && |out| <= |r.1| && r.1[..|out|] == out
  {
    (st, out + Finalize(st))
  }

  lemma ExitTwiceRepeats(st: State, out: seq<Report>)
    requires Inv(st)
    ensures var (st1, out1) := ProgramExit(st, out);
            var (st2, out2) := ProgramExit(st1, out1);
            st2 == st && out2 == out + Finalize(st) + Finalize(st)
  {
  }
}
