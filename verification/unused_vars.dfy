/** The `no-unused-vars` rule: collect declared names, identifier uses and simple parameter names during
    the walk, then at `Program:exit` report every declared name that is neither used nor a parameter. */
module UnusedVars {
  import opened Wrappers
  import opened Seqs
  import opened OrderedMap
  import opened Ast
  import opened Edits

  /** `declaredVars` (name to declarator), `usedVars` and `functionParams`. */
  datatype State = State(declared: Entries<string, Declarator>, used: set<string>, params: set<string>)

  const Initial: State := State([], {}, {})

  // ---------------------------------------------------------------- binding collection

  /** The names an object pattern binds: one per `Property` whose `value` is an `Identifier`. */
  function PropertyNames(props: seq<PatternProperty>): (r: seq<string>)
    ensures forall n :: n in r <==>
      exists i :: 0 <= i < |props| && props[i].Property? && props[i].value.IdentLeaf? && props[i].value.name == n
    ensures |r| <= |props|
  {
    if |props| == 0 then []
    else
      var p := props[0];
      var rest := PropertyNames(props[1..]);
      assert forall i :: 1 <= i < |props| ==> props[i] == props[1..][i - 1];
      if p.Property? && p.value.IdentLeaf? then [p.value.name] + rest else rest
  }

  /** The number of holes in an array pattern. */
  function Holes(elems: seq<Option<Leaf>>): nat
  {
    if |elems| == 0 then 0 else (if elems[0].None? then 1 else 0) + Holes(elems[1..])
  }

  /** The names an array pattern binds: one per element that is an `Identifier`; holes bind nothing. */
  function ElementNames(elems: seq<Option<Leaf>>): (r: seq<string>)
    ensures forall n :: n in r <==>
      exists i :: 0 <= i < |elems| && elems[i].Some? && elems[i].value.IdentLeaf? && elems[i].value.name == n
    ensures |r| + Holes(elems) <= |elems|
  {
    if |elems| == 0 then []
    else
      var e := elems[0];
      var rest := ElementNames(elems[1..]);
      assert forall i :: 1 <= i < |elems| ==> elems[i] == elems[1..][i - 1];
      if e.Some? && e.value.IdentLeaf? then [e.value.name] + rest else rest
  }

  /** The names the `VariableDeclarator` visitor records for a declarator's `id`. */
  function BoundNames(t: Target): seq<string>
  {
    match t
    case IdTarget(_, name) => [name]
    case ObjectPattern(props) => PropertyNames(props)
    case ArrayPattern(elems) => ElementNames(elems)
  }

  /** Every name of a declarator is recorded against the whole declarator. */
  function WithDeclarator(names: seq<string>, d: Declarator): (r: seq<(string, Declarator)>)
    ensures |r| == |names|
    ensures forall i :: 0 <= i < |names| ==> r[i] == (names[i], d)
  {
    seq(|names|, i requires 0 <= i < |names| => (names[i], d))
  }

  /** The `VariableDeclarator` visitor. */
  function OnDeclarator(st: State, d: Declarator): (r: State)
    ensures r.used == st.used && r.params == st.params
  {
    st.(declared := SetAll(st.declared, WithDeclarator(BoundNames(d.target), d)))
  }

  /** The last binding of a name among pairs that all carry `d` is `d` itself. */
  lemma {:induction false} LastForWithDeclarator(names: seq<string>, d: Declarator, n: string)
    ensures LastFor(WithDeclarator(names, d), n) == if n in names then Some(d) else None
  {
    var ps := WithDeclarator(names, d);
    if n in names {
      var i :| 0 <= i < |names| && names[i] == n;
      assert Keys(ps)[i] == n;
    }
  }

  /** Every name the declarator binds (its identifier, the identifier values of its object pattern, the
      identifier elements of its array pattern) now maps to the whole declarator; other names are
      untouched. */
  lemma DeclaratorRecords(st: State, d: Declarator, n: string)
    ensures Lookup(OnDeclarator(st, d).declared, n) == if n in BoundNames(d.target) then Some(d) else Lookup(st.declared, n)
  {
    SetAllLookup(st.declared, WithDeclarator(BoundNames(d.target), d), n);
    LastForWithDeclarator(BoundNames(d.target), d, n);
  }

  /** A plain declarator of a name not yet declared appends that one name to `declaredVars`. */
  lemma FreshPlainDeclarator(st: State, d: Declarator)
    requires d.target.IdTarget? && d.target.name !in Keys(st.declared)
    ensures Visit(st, VisitVariableDeclarator(d)) == st.(declared := st.declared + [(d.target.name, d)])
  {
    var n := d.target.name;
    assert WithDeclarator(BoundNames(d.target), d) == [(n, d)] by {
      assert BoundNames(d.target) == [n];
    }
    var m := st.declared;
    assert SetAll(m, [(n, d)]) == m + [(n, d)] by {
      SetFresh(m, n, d);
      assert [(n, d)][1..] == [];
    }
  }

  /** The names of the simple (`Identifier`) parameters of a function. */
  function ParamNames(params: seq<Leaf>): (r: set<string>)
    ensures forall n :: n in r <==> exists i :: 0 <= i < |params| && params[i].IdentLeaf? && params[i].name == n
  {
    set i | 0 <= i < |params| && params[i].IdentLeaf? :: params[i].name
  }

  // ---------------------------------------------------------------- use classification

  /** The `Identifier` visitor's test: not the `id` of its own declarator, and, under a `Property`, only
      when the property is shorthand or the identifier is its value (a non-shorthand key is no use). */
  predicate CountsAsUse(ident: Identifier)
  {
    var p := ident.parent;
    && (p.None? || !p.value.DeclaratorParent? || p.value.idNode != ident.id)
    && (p.None? || !p.value.PropertyParent? || p.value.shorthand || p.value.valueNode == ident.id)
  }

  /** One visitor callback. */
  function Visit(st: State, e: Event): State
  {
    match e
    case VisitVariableDeclarator(d) => OnDeclarator(st, d)
    case VisitFunctionDeclaration(ps) => st.(params := st.params + ParamNames(ps))
    case VisitFunctionExpression(ps) => st.(params := st.params + ParamNames(ps))
    case VisitArrowFunctionExpression(ps) => st.(params := st.params + ParamNames(ps))
    case VisitIdentifier(ident) => if CountsAsUse(ident) then st.(used := st.used + {ident.name}) else st
    case _ => st
  }

  /** The host's walk, delivered as the sequence of callbacks it makes. */
  function Walk(st: State, events: seq<Event>): State
    decreases |events|
  {
    if |events| == 0 then st else Walk(Visit(st, events[0]), events[1..])
  }

  /** `e` reads `name`: an identifier that is not its own declarator's `id` and not the key of a
      non-shorthand property. */
  predicate IsUseOf(e: Event, name: string)
  {
    && e.VisitIdentifier? && e.ident.name == name
    && !(e.ident.parent.Some? && e.ident.parent.value == DeclaratorParent(e.ident.id))
    && !(e.ident.parent.Some? && e.ident.parent.value.PropertyParent? &&
         !e.ident.parent.value.shorthand && e.ident.parent.value.valueNode != e.ident.id)
  }

  /** `e` declares `name` as a simple parameter of a function declaration, function expression or arrow. */
  predicate IsParamOf(e: Event, name: string)
  {
    && (e.VisitFunctionDeclaration? || e.VisitFunctionExpression? || e.VisitArrowFunctionExpression?)
    && exists i :: 0 <= i < |e.params| && e.params[i].IdentLeaf? && e.params[i].name == name
  }

  /** Walking two stretches of a traversal one after the other is walking the whole. */
  lemma {:induction false} WalkAppend(st: State, a: seq<Event>, b: seq<Event>)
    ensures Walk(st, a + b) == Walk(Walk(st, a), b)
    decreases |a|
  {
    if |a| > 0 {
      assert (a + b)[1..] == a[1..] + b;
      WalkAppend(Visit(st, a[0]), a[1..], b);
    } else {
      assert a + b == b;
    }
  }

  /** A walk is its first callback followed by the walk of the rest. */
  lemma WalkCons(st: State, e: Event, rest: seq<Event>)
    ensures Walk(st, [e] + rest) == Walk(Visit(st, e), rest)
  {
    assert ([e] + rest)[1..] == rest;
  }

  /** A walk of one callback is that callback. */
  lemma WalkOne(st: State, e: Event)
    ensures Walk(st, [e]) == Visit(st, e)
  {
    WalkCons(st, e, []);
    assert [e] + [] == [e];
  }

  /** A walk of two callbacks passes through the state between them. */
  lemma WalkTwo(s0: State, s1: State, e0: Event, e1: Event)
    requires Visit(s0, e0) == s1
    ensures Walk(s0, [e0, e1]) == Visit(s1, e1)
  {
    WalkCons(s0, e0, [e1]);
    assert [e0] + [e1] == [e0, e1];
    WalkOne(s1, e1);
  }

  /** A walk of three callbacks passes through the states between them. */
  lemma WalkThree(s0: State, s1: State, s2: State, e0: Event, e1: Event, e2: Event)
    requires Visit(s0, e0) == s1 && Visit(s1, e1) == s2
    ensures Walk(s0, [e0, e1, e2]) == Visit(s2, e2)
  {
    WalkCons(s0, e0, [e1, e2]);
    assert [e0] + [e1, e2] == [e0, e1, e2];
    WalkTwo(s1, s2, e1, e2);
  }

  /** A name is used at exit exactly when some identifier of the walk reads it. */
  lemma {:induction false} UsedIffSomeUse(st: State, events: seq<Event>, name: string)
    ensures name in Walk(st, events).used <==>
      name in st.used || exists i :: 0 <= i < |events| && IsUseOf(events[i], name)
    decreases |events|
  {
    if |events| > 0 {
      UsedIffSomeUse(Visit(st, events[0]), events[1..], name);
      assert name in Visit(st, events[0]).used <==> name in st.used || IsUseOf(events[0], name);
      if exists i :: 0 <= i < |events| && IsUseOf(events[i], name) {
        var i :| 0 <= i < |events| && IsUseOf(events[i], name);
        if i > 0 {
          assert IsUseOf(events[1..][i - 1], name);
        }
      }
      if exists i :: 0 <= i < |events[1..]| && IsUseOf(events[1..][i], name) {
        var i :| 0 <= i < |events[1..]| && IsUseOf(events[1..][i], name);
        assert IsUseOf(events[i + 1], name);
      }
    }
  }

  /** A name is exempt at exit exactly when some function of the walk has it as a simple parameter. */
  lemma {:induction false} ParamIffSomeParam(st: State, events: seq<Event>, name: string)
    ensures name in Walk(st, events).params <==>
      name in st.params || exists i :: 0 <= i < |events| && IsParamOf(events[i], name)
    decreases |events|
  {
    if |events| > 0 {
      ParamIffSomeParam(Visit(st, events[0]), events[1..], name);
      assert name in Visit(st, events[0]).params <==> name in st.params || IsParamOf(events[0], name);
      if exists i :: 0 <= i < |events| && IsParamOf(events[i], name) {
        var i :| 0 <= i < |events| && IsParamOf(events[i], name);
        if i > 0 {
          assert IsParamOf(events[1..][i - 1], name);
        }
      }
      if exists i :: 0 <= i < |events[1..]| && IsParamOf(events[1..][i], name) {
        var i :| 0 <= i < |events[1..]| && IsParamOf(events[1..][i], name);
        assert IsParamOf(events[i + 1], name);
      }
    }
  }

  /** The `set` calls one callback makes on `declaredVars`. */
  function EventDeclarations(e: Event): seq<(string, Declarator)>
  {
    if e.VisitVariableDeclarator? then WithDeclarator(BoundNames(e.declarator.target), e.declarator) else []
  }

  /** The `set` calls the whole walk makes on `declaredVars`, in order. */
  function WalkDeclarations(events: seq<Event>): seq<(string, Declarator)>
    decreases |events|
  {
    if |events| == 0 then [] else EventDeclarations(events[0]) + WalkDeclarations(events[1..])
  }

  lemma {:induction false} WalkIsSetAll(st: State, events: seq<Event>)
    ensures Walk(st, events).declared == SetAll(st.declared, WalkDeclarations(events))
    decreases |events|
  {
    if |events| > 0 {
      WalkIsSetAll(Visit(st, events[0]), events[1..]);
      assert Visit(st, events[0]).declared == SetAll(st.declared, EventDeclarations(events[0]));
      SetAllAppend(st.declared, EventDeclarations(events[0]), WalkDeclarations(events[1..]));
    }
  }

  /** Declarations are keyed by name: a name declared twice keeps the declarator of its last declaration,
      at the position of its first. */
  lemma WalkDeclared(events: seq<Event>, name: string)
    ensures Lookup(Walk(Initial, events).declared, name) == LastFor(WalkDeclarations(events), name)
    ensures Keys(Walk(Initial, events).declared) == AppendNew([], Keys(WalkDeclarations(events)))
  {
    WalkIsSetAll(Initial, events);
    SetAllLookup([], WalkDeclarations(events), name);
    SetAllKeys([], WalkDeclarations(events));
  }

  // ---------------------------------------------------------------- invariant

  /** `declaredVars` never holds a name twice. */
  predicate Inv(st: State)
  {
    Valid(st.declared)
  }

  lemma {:induction false} WalkKeepsInv(st: State, events: seq<Event>)
    requires Inv(st)
    ensures Inv(Walk(st, events))
    decreases |events|
  {
    if |events| > 0 {
      var e := events[0];
      if e.VisitVariableDeclarator? {
        SetAllValid(st.declared, WithDeclarator(BoundNames(e.declarator.target), e.declarator));
      }
      WalkKeepsInv(Visit(st, e), events[1..]);
    }
  }

  // ---------------------------------------------------------------- Program:exit

  /** A declarator whose parent is a `VariableDeclaration` is one of that declaration's declarators, as
      in every tree the parser builds. */
  predicate Placed(d: Declarator)
  {
    d.parent.VariableDeclaration? ==> Sibling(d.id, d.range) in d.parent.declarations
  }

  /** The ranges of a declaration's declarators. */
  function SiblingRanges(ds: seq<Sibling>): (r: seq<Range>)
    ensures |r| == |ds|
    ensures forall i :: 0 <= i < |ds| ==> r[i] == ds[i].range
  {
    seq(|ds|, i requires 0 <= i < |ds| => ds[i].range)
  }

  /** The fix callback: a declaration with one declarator is removed whole; otherwise the declarator is
      cut out with one adjacent comma; a declarator outside a `VariableDeclaration` gets no fix. When the
      declarator is missing from its parent's list, `indexOf` yields -1, which counts as "not last" and
      cuts up to the first declarator, or, in an empty list, as "last and not first", whose
      `declarations[-2]` is `undefined`, so the callback throws. */
  function DeclaratorFix(d: Declarator): (r: Fix)
    ensures d.parent.OtherDeclaratorParent? <==> r == NoFix
    ensures d.parent.VariableDeclaration? && |d.parent.declarations| == 1 ==> r == RemoveNode(d.parent.id)
    ensures r == Throws <==> d.parent.VariableDeclaration? && |d.parent.declarations| == 0
    ensures Placed(d) && d.parent.VariableDeclaration? && |d.parent.declarations| >= 2 ==>
      var ds := d.parent.declarations;
      var i := IndexOf(ds, Sibling(d.id, d.range));
      && r.RemoveRange?
      && (i < |ds| - 1 ==> r == RemoveRange(d.range.start, ds[i + 1].range.start))
      && (i == |ds| - 1 ==> r == RemoveRange(ds[i - 1].range.end, d.range.end))
      && (Ordered(SiblingRanges(ds)) ==>
            && r.start <= d.range.start && d.range.end <= r.end && r.start < r.end
            && forall j :: 0 <= j < |ds| && j != i ==> ds[j].range.end <= r.start || r.end <= ds[j].range.start)
    ensures !Placed(d) && |d.parent.declarations| >= 2 ==>
      r == RemoveRange(d.range.start, d.parent.declarations[0].range.start)
  {
    match d.parent
    case VariableDeclaration(parentId, declarations) =>
      if |declarations| == 1 then RemoveNode(parentId)
      else
        var index := IndexOf(declarations, Sibling(d.id, d.range));
        if index >= 0 then
          var cut := CutRange(d.range, SiblingRanges(declarations), index);
          RemoveRange(cut.start, cut.end)
        else if |declarations| == 0 then Throws
        else RemoveRange(d.range.start, declarations[0].range.start)
    case OtherDeclaratorParent(_) => NoFix
  }

  predicate Unused(st: State, name: string)
  {
    name !in st.used && name !in st.params
  }

  /** The loop over `declaredVars`. */
  function ReportEntries(entries: Entries<string, Declarator>, used: set<string>, params: set<string>): (r: seq<Report>)
    ensures forall rep :: rep in r ==> exists p :: p in entries && p.0 !in used && p.0 !in params &&
                                                   rep == Report(p.1.id, VariableMessage(p.0), DeclaratorFix(p.1))
    ensures forall p :: p in entries && p.0 !in used && p.0 !in params ==>
                          Report(p.1.id, VariableMessage(p.0), DeclaratorFix(p.1)) in r
    decreases |entries|
  {
    if |entries| == 0 then []
    else
      var (name, d) := entries[0];
      var rest := ReportEntries(entries[1..], used, params);
      if name !in used && name !in params then [Report(d.id, VariableMessage(name), DeclaratorFix(d))] + rest
      else rest
  }

  /** `Program:exit`: the reports, in the order `context.report` is called. */
  function Finalize(st: State): seq<Report>
    requires Inv(st)
  {
    ReportEntries(st.declared, st.used, st.params)
  }

  /** Liveness: a variable report for `name` exists exactly when `name` was declared, never used and is
      not a parameter; it points at the declarator `name` maps to and carries that declarator's fix. */
  lemma ReportedIffUnused(st: State, name: string)
    requires Inv(st)
    ensures (exists r :: r in Finalize(st) && r.message == VariableMessage(name)) <==>
              name in Keys(st.declared) && Unused(st, name)
    ensures forall r :: r in Finalize(st) && r.message == VariableMessage(name) ==>
              var d := Lookup(st.declared, name).value;
              r == Report(d.id, VariableMessage(name), DeclaratorFix(d))
  {
    var m := st.declared;
    forall r | r in Finalize(st) && r.message == VariableMessage(name)
      ensures name in Keys(m) && Unused(st, name)
      ensures Lookup(m, name).Some? && r == Report(Lookup(m, name).value.id, VariableMessage(name), DeclaratorFix(Lookup(m, name).value))
    {
      ReportOfName(st, name, r);
    }
    if name in Keys(m) && Unused(st, name) {
      var d := Lookup(m, name).value;
      assert (name, d) in m;
      var r := Report(d.id, VariableMessage(name), DeclaratorFix(d));
      assert r in Finalize(st) && r.message == VariableMessage(name);
    }
  }

  /** A report carrying the message of `name` comes from the entry of `name`. */
  lemma ReportOfName(st: State, name: string, r: Report)
    requires Inv(st) && r in Finalize(st) && r.message == VariableMessage(name)
    ensures name in Keys(st.declared) && Unused(st, name)
    ensures Lookup(st.declared, name).Some?
    ensures r == Report(Lookup(st.declared, name).value.id, VariableMessage(name), DeclaratorFix(Lookup(st.declared, name).value))
  {
    var m := st.declared;
    var p :| p in m && p.0 !in st.used && p.0 !in st.params && r == Report(p.1.id, VariableMessage(p.0), DeclaratorFix(p.1));
    VariableMessageInjective(p.0, name);
    var i :| 0 <= i < |m| && m[i] == p;
    LookupEntry(m, i);
    assert Keys(m)[i] == name;
  }

  /** A report of one pass names a key of the entries it was built from. */
  lemma ReportNamesKey(entries: Entries<string, Declarator>, used: set<string>, params: set<string>, name: string)
    requires name !in Keys(entries)
    ensures forall rep :: rep in ReportEntries(entries, used, params) ==> rep.message != VariableMessage(name)
  {
    forall rep | rep in ReportEntries(entries, used, params)
      ensures rep.message != VariableMessage(name)
    {
      var p :| p in entries && p.0 !in used && p.0 !in params && rep == Report(p.1.id, VariableMessage(p.0), DeclaratorFix(p.1));
      var j :| 0 <= j < |entries| && entries[j] == p;
      assert Keys(entries)[j] == p.0;
      VariableMessageInjective(p.0, name);
    }
  }

  /** Messages pairwise distinct. */
  predicate DistinctMessages(r: seq<Report>)
  {
    forall i, j :: 0 <= i < j < |r| ==> r[i].message != r[j].message
  }

  lemma ConsDistinctMessages(head: Report, rest: seq<Report>)
    requires DistinctMessages(rest)
    requires forall rep :: rep in rest ==> rep.message != head.message
    ensures DistinctMessages([head] + rest)
  {
    var r := [head] + rest;
    forall i, j | 0 <= i < j < |r|
      ensures r[i].message != r[j].message
    {
      assert r[j] == rest[j - 1] && r[j] in rest;
      if i > 0 {
        assert r[i] == rest[i - 1];
      }
    }
  }

  /** One unfolding of the report loop. */
  lemma ReportEntriesStep(entries: Entries<string, Declarator>, used: set<string>, params: set<string>)
    requires |entries| > 0
    ensures var name, d := entries[0].0, entries[0].1;
      ReportEntries(entries, used, params) ==
        if name !in used && name !in params
        then [Report(d.id, VariableMessage(name), DeclaratorFix(d))] + ReportEntries(entries[1..], used, params)
        else ReportEntries(entries[1..], used, params)
  {
    assert forall p :: p in entries[1..] ==> p in entries;
  }

  /** Every report of one pass has its own message: no name is reported twice. */
  lemma {:induction false} OneReportPerName(entries: Entries<string, Declarator>, used: set<string>, params: set<string>)
    requires Valid(entries)
    ensures DistinctMessages(ReportEntries(entries, used, params))
    decreases |entries|
  {
    if |entries| > 0 {
      var rest := entries[1..];
      ValidTail(entries);
      ReportEntriesStep(entries, used, params);
      OneReportPerName(rest, used, params);
      var name, d := entries[0].0, entries[0].1;
      ReportNamesKey(rest, used, params, name);
      if name !in used && name !in params {
        ConsDistinctMessages(Report(d.id, VariableMessage(name), DeclaratorFix(d)), ReportEntries(rest, used, params));
      }
    }
  }

  /** The positions, from `i` on, of the entries whose names are neither used nor parameters: strictly
      increasing, and holding every such position. */
  function UnusedFrom(entries: Entries<string, Declarator>, used: set<string>, params: set<string>, i: nat): (r: seq<nat>)
    requires i <= |entries|
    ensures forall k :: 0 <= k < |r| ==> i <= r[k] < |entries| && entries[r[k]].0 !in used && entries[r[k]].0 !in params
    ensures forall k, l :: 0 <= k < l < |r| ==> r[k] < r[l]
    ensures forall j :: i <= j < |entries| && entries[j].0 !in used && entries[j].0 !in params ==> j in r
    decreases |entries| - i
  {
    if i == |entries| then []
    else
      var rest := UnusedFrom(entries, used, params, i + 1);
      if entries[i].0 !in used && entries[i].0 !in params then [i] + rest else rest
  }

  /** The report the loop makes for an unused entry. */
  function EntryReport(p: (string, Declarator)): Report
  {
    Report(p.1.id, VariableMessage(p.0), DeclaratorFix(p.1))
  }

  /** `r` holds, one for one and in order, the reports of the entries at positions `pos`. */
  predicate Follows(r: seq<Report>, entries: Entries<string, Declarator>, pos: seq<nat>)
  {
    && |r| == |pos|
    && forall k :: 0 <= k < |pos| ==> pos[k] < |entries| && r[k] == EntryReport(entries[pos[k]])
  }

  lemma FollowsCons(r: seq<Report>, entries: Entries<string, Declarator>, pos: seq<nat>, i: nat)
    requires Follows(r, entries, pos) && i < |entries|
    ensures Follows([EntryReport(entries[i])] + r, entries, [i] + pos)
  {
    var r', pos' := [EntryReport(entries[i])] + r, [i] + pos;
    forall k | 0 <= k < |pos'|
      ensures pos'[k] < |entries| && r'[k] == EntryReport(entries[pos'[k]])
    {
      if k > 0 {
        assert r'[k] == r[k - 1] && pos'[k] == pos[k - 1];
      }
    }
  }

  /** The reports of the loop from position `i` on are, one for one and in the same order, the reports of
      the unused entries from `i` on. */
  lemma {:induction false} ReportsFollowPositions(entries: Entries<string, Declarator>, used: set<string>, params: set<string>, i: nat)
    requires i <= |entries|
    ensures Follows(ReportEntries(entries[i..], used, params), entries, UnusedFrom(entries, used, params, i))
    decreases |entries| - i
  {
    if i < |entries| {
      var e := entries[i..];
      ReportsFollowPositions(entries, used, params, i + 1);
      assert e[0] == entries[i] && e[1..] == entries[i + 1..];
      ReportEntriesStep(e, used, params);
      if entries[i].0 !in used && entries[i].0 !in params {
        FollowsCons(ReportEntries(entries[i + 1..], used, params), entries, UnusedFrom(entries, used, params, i + 1), i);
      }
    }
  }

  /** Order and count: `Program:exit` reports exactly the unused declared names, one report each, in the
      order their entries hold in `declaredVars`. */
  lemma ReportsInDeclarationOrder(st: State)
    requires Inv(st)
    ensures var r, pos := Finalize(st), UnusedFrom(st.declared, st.used, st.params, 0);
      && |r| == |pos|
      && forall k :: 0 <= k < |pos| ==>
           r[k] == Report(st.declared[pos[k]].1.id, VariableMessage(st.declared[pos[k]].0), DeclaratorFix(st.declared[pos[k]].1))
  {
    ReportsFollowPositions(st.declared, st.used, st.params, 0);
    assert st.declared[0..] == st.declared;
  }

  /** The whole rule over a walk. */
  function Lint(events: seq<Event>): seq<Report>
  {
    WalkKeepsInv(Initial, events);
    Finalize(Walk(Initial, events))
  }

  /** Over a whole walk, no name is reported twice. */
  lemma NoNameReportedTwice(events: seq<Event>)
    ensures DistinctMessages(Lint(events))
  {
    WalkKeepsInv(Initial, events);
    OneReportPerName(Walk(Initial, events).declared, Walk(Initial, events).used, Walk(Initial, events).params);
  }

  /** A simple parameter of any function, arrow or function expression is never reported, used or not. */
  lemma ParameterNeverReported(events: seq<Event>, name: string, i: nat)
    requires i < |events| && IsParamOf(events[i], name)
    ensures forall r :: r in Lint(events) ==> r.message != VariableMessage(name)
  {
    WalkKeepsInv(Initial, events);
    ParamIffSomeParam(Initial, events, name);
    ReportedIffUnused(Walk(Initial, events), name);
  }

  /** Completeness over a walk: a declared name that no identifier reads and no function takes as a
      parameter is reported. */
  lemma UnreadNameReported(events: seq<Event>, name: string)
    requires name in Keys(WalkDeclarations(events))
    requires forall i :: 0 <= i < |events| ==> !IsUseOf(events[i], name) && !IsParamOf(events[i], name)
    ensures exists r :: r in Lint(events) && r.message == VariableMessage(name)
  {
    var st := Walk(Initial, events);
    WalkKeepsInv(Initial, events);
    UsedIffSomeUse(Initial, events, name);
    ParamIffSomeParam(Initial, events, name);
    WalkDeclared(events, name);
    ReportedIffUnused(st, name);
  }

  /** `Program:exit` leaves the collected state as it was, so running it a second time appends the same
      reports again. */
  function ProgramExit(st: State, out: seq<Report>): (r: (State, seq<Report>))
    requires Inv(st)
    ensures r.0 == st && |out| <= |r.1| && r.1[..|out|] == out
  {
    (st, out + Finalize(st))
  }

  lemma ExitTwiceRepeats(st: State, out: seq<Report>)
    requires Inv(st)
    ensures var (st1, out1) := ProgramExit(st, out);
            var (st2, out2) := ProgramExit(st1, out1);
            st2 == st && out2 == out + Finalize(st) + Finalize(st)
  {
  }

  // ---------------------------------------------------------------- pattern names in a full traversal

  /** The `Identifier` callbacks a full traversal makes for the names an object pattern binds: each
      identifier value has its `Property` as parent. */
  function PropertyIdentifiers(props: seq<PatternProperty>): (r: seq<Identifier>)
    ensures |r| == |PropertyNames(props)|
    ensures forall k :: 0 <= k < |r| ==> r[k].name == PropertyNames(props)[k]
    ensures forall k :: 0 <= k < |r| ==> r[k].parent.Some? && r[k].parent.value.PropertyParent? && r[k].parent.value.valueNode == r[k].id
  {
    if |props| == 0 then []
    else
      var p := props[0];
      var rest := PropertyIdentifiers(props[1..]);
      if p.Property? && p.value.IdentLeaf?
      then [Identifier(p.value.id, p.value.name, Some(PropertyParent(p.shorthand, p.value.id)))] + rest
      else rest
  }

  /** The `Identifier` callbacks a full traversal makes for the names an array pattern binds: each
      identifier element has the `ArrayPattern` as parent. */
  function ElementIdentifiers(elems: seq<Option<Leaf>>): (r: seq<Identifier>)
    ensures |r| == |ElementNames(elems)|
    ensures forall k :: 0 <= k < |r| ==> r[k].name == ElementNames(elems)[k] && r[k].parent == Some(OtherParent)
  {
    if |elems| == 0 then []
    else
      var e := elems[0];
      var rest := ElementIdentifiers(elems[1..]);
      if e.Some? && e.value.IdentLeaf?
      then [Identifier(e.value.id, e.value.name, Some(OtherParent))] + rest
      else rest
  }

  function PatternIdentifiers(t: Target): seq<Identifier>
  {
    match t
    case IdTarget(_, _) => []
    case ObjectPattern(props) => PropertyIdentifiers(props)
    case ArrayPattern(elems) => ElementIdentifiers(elems)
  }

  /** The `Identifier` visitor's test and the reading of "use" agree. */
  lemma CountsAsUseIsUse(ident: Identifier)
    ensures CountsAsUse(ident) <==> IsUseOf(VisitIdentifier(ident), ident.name)
  {
  }

  /** The identifier a full traversal visits for a declarator's own plain `id` is no use of the name:
      visiting it leaves the state as it was, so the walk goes on as if it were not there. */
  lemma DeclaredIdentifierIsNoUse(st: State, d: Declarator, rest: seq<Event>)
    requires d.target.IdTarget?
    ensures var e := VisitIdentifier(Identifier(d.target.idNode, d.target.name, Some(DeclaratorParent(d.target.idNode))));
      && !IsUseOf(e, d.target.name)
      && Visit(st, e) == st
      && Walk(st, [e] + rest) == Walk(st, rest)
  {
    var e := VisitIdentifier(Identifier(d.target.idNode, d.target.name, Some(DeclaratorParent(d.target.idNode))));
    WalkCons(st, e, rest);
  }

  /** A traversal that visits the identifiers inside a destructuring pattern, as a full traversal of the
      tree does, marks every name the pattern binds as used, so no pattern-bound name is ever reported:
      the `Identifier` visitor excludes only a declarator's own `id` and non-shorthand property keys, and
      a pattern's identifiers are neither. */
  lemma PatternNamesNeverReported(events: seq<Event>, t: Target, name: string)
    requires name in BoundNames(t) && !t.IdTarget?
    requires forall ident :: ident in PatternIdentifiers(t) ==> VisitIdentifier(ident) in events
    ensures forall r :: r in Lint(events) ==> r.message != VariableMessage(name)
  {
    var ids := PatternIdentifiers(t);
    var k :| 0 <= k < |BoundNames(t)| && BoundNames(t)[k] == name;
    var ident := ids[k];
    assert ident in ids;
    var i :| 0 <= i < |events| && events[i] == VisitIdentifier(ident);
    CountsAsUseIsUse(ident);
    assert IsUseOf(events[i], name);
    UsedIffSomeUse(Initial, events, name);
    WalkKeepsInv(Initial, events);
    ReportedIffUnused(Walk(Initial, events), name);
  }
}
