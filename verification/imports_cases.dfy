/** Worked cases of `no-unused-imports`: a walk as the host would deliver it and the exact reports the
    rule produces for it. */
module ImportsCases {
  import opened Wrappers
  import opened Seqs
  import opened OrderedMap
  import opened Ast
  import opened Edits
  import opened UnusedImports

  /** `import { a, b } from "m";`: two named specifiers binding different names. */
  predicate TwoNamed(decl: ImportDecl, a: Specifier, b: Specifier)
  {
    && decl.specifiers == Some([a, b])
    && a.kind == ImportSpecifier && b.kind == ImportSpecifier
    && a.local != b.local
  }

  /** The declaration, then the identifiers inside its two specifiers, then `after`. */
  function TwoNamedWalk(decl: ImportDecl, a: Specifier, b: Specifier, after: seq<Event>): seq<Event>
  {
    [ VisitImportDeclaration(decl),
      VisitIdentifier(Identifier(a.id + 1, a.local, Some(ImportSpecifierParent))),
      VisitIdentifier(Identifier(b.id + 1, b.local, Some(ImportSpecifierParent)))] + after
  }

  /** Visiting the declaration records both names, in specifier order. */
  lemma TwoNamedCollect(st: State, decl: ImportDecl, a: Specifier, b: Specifier)
    requires TwoNamed(decl, a, b) && st == Initial
    ensures Visit(st, VisitImportDeclaration(decl)) ==
      State([(a.local, Binding(decl, a)), (b.local, Binding(decl, b))], {})
  {
    var bs := [(a.local, Binding(decl, a)), (b.local, Binding(decl, b))];
    assert SpecifierBindings(decl, [a, b]) == bs by {
      assert [a, b][1..] == [b] && [b][1..] == [];
      assert SpecifierBindings(decl, [b]) == [(b.local, Binding(decl, b))] + SpecifierBindings(decl, []);
    }
    assert Keys(bs) == [a.local, b.local];
    SetAllFresh([], bs);
  }

  /** The identifiers inside the specifiers name the bindings and do not use them, so the walk
      continues from the state the declaration leaves. */
  lemma TwoNamedSteps(st: State, decl: ImportDecl, a: Specifier, b: Specifier, after: seq<Event>)
    ensures Walk(st, TwoNamedWalk(decl, a, b, after)) == Walk(Visit(st, VisitImportDeclaration(decl)), after)
  {
    var ia := VisitIdentifier(Identifier(a.id + 1, a.local, Some(ImportSpecifierParent)));
    var ib := VisitIdentifier(Identifier(b.id + 1, b.local, Some(ImportSpecifierParent)));
    assert TwoNamedWalk(decl, a, b, after) == [VisitImportDeclaration(decl)] + ([ia] + ([ib] + after));
    WalkCons(st, VisitImportDeclaration(decl), [ia] + ([ib] + after));
    SpecifierIdentifiersSkipped(Visit(st, VisitImportDeclaration(decl)), a, b, after);
  }

  /** Walking the identifiers of two import specifiers changes nothing. */
  lemma SpecifierIdentifiersSkipped(st: State, a: Specifier, b: Specifier, after: seq<Event>)
    ensures Walk(st, [VisitIdentifier(Identifier(a.id + 1, a.local, Some(ImportSpecifierParent)))] +
                     ([VisitIdentifier(Identifier(b.id + 1, b.local, Some(ImportSpecifierParent)))] + after))
         == Walk(st, after)
  {
    var ia := VisitIdentifier(Identifier(a.id + 1, a.local, Some(ImportSpecifierParent)));
    var ib := VisitIdentifier(Identifier(b.id + 1, b.local, Some(ImportSpecifierParent)));
    WalkCons(st, ia, [ib] + after);
    assert Visit(st, ia) == st;
    WalkCons(st, ib, after);
    assert Visit(st, ib) == st;
  }

  /** Visiting the declaration, then reading `a`: `a` is used and `b` is not. */
  lemma PartialWalk(decl: ImportDecl, a: Specifier, b: Specifier, read: NodeId)
    requires TwoNamed(decl, a, b)
    ensures Walk(Initial, TwoNamedWalk(decl, a, b, [VisitIdentifier(Identifier(read, a.local, Some(OtherParent)))])) ==
      State([(a.local, Binding(decl, a)), (b.local, Binding(decl, b))], {a.local})
  {
    var r := VisitIdentifier(Identifier(read, a.local, Some(OtherParent)));
    var s1 := State([(a.local, Binding(decl, a)), (b.local, Binding(decl, b))], {});
    TwoNamedSteps(Initial, decl, a, b, [r]);
    TwoNamedCollect(Initial, decl, a, b);
    WalkCons(s1, r, []);
    assert [r] + [] == [r];
    assert {} + {a.local} == {a.local};
  }

  /** The unused specifiers of the partial case form one group. */
  lemma PartialGroups(decl: ImportDecl, a: Specifier, b: Specifier)
    requires TwoNamed(decl, a, b)
    ensures Groups(State([(a.local, Binding(decl, a)), (b.local, Binding(decl, b))], {a.local})) == [(decl, [b])]
  {
    var st := State([(a.local, Binding(decl, a)), (b.local, Binding(decl, b))], {a.local});
    var empty: GroupMap := [];
    PushFresh(empty, decl, b);
    assert st.imported[1..] == [(b.local, Binding(decl, b))] && st.imported[1..][1..] == [];
    assert CollectGroups(empty, st.imported, st.used) == CollectGroups(empty, st.imported[1..], st.used);
    assert CollectGroups(empty, st.imported[1..], st.used) == CollectGroups([(decl, [b])], [], st.used);
  }

  /** `import { a, b } from "m"; a();`: one report, for `b`, whose fix removes `, b` (from the end of `a`
      to the end of `b`) and leaves `import { a } from "m";`. */
  lemma PartialReport(decl: ImportDecl, a: Specifier, b: Specifier, read: NodeId)
    requires TwoNamed(decl, a, b)
    ensures var events := TwoNamedWalk(decl, a, b, [VisitIdentifier(Identifier(read, a.local, Some(OtherParent)))]);
      Lint(events) == [Report(b.id, ImportMessage(b.local), RemoveRange(a.range.end, b.range.end))]
  {
    var events := TwoNamedWalk(decl, a, b, [VisitIdentifier(Identifier(read, a.local, Some(OtherParent)))]);
    PartialWalk(decl, a, b, read);
    PartialGroups(decl, a, b);
    var groups := [(decl, [b])];
    assert SpecifierFix(decl, b) == RemoveRange(a.range.end, b.range.end) by {
      assert IndexOf([a, b], b) == 1;
    }
    assert ReportGroups(groups) == GroupReports(decl, [b]) + ReportGroups(groups[1..]);
  }

  /** With neither name read, both specifiers form one group. */
  lemma WholeGroups(decl: ImportDecl, a: Specifier, b: Specifier)
    requires TwoNamed(decl, a, b)
    ensures Groups(State([(a.local, Binding(decl, a)), (b.local, Binding(decl, b))], {})) == [(decl, [a, b])]
  {
    var s1 := State([(a.local, Binding(decl, a)), (b.local, Binding(decl, b))], {});
    var groups := [(decl, [a, b])];
    var empty: GroupMap := [];
    PushFresh(empty, decl, a);
    PushSingleton(decl, [a], b);
    assert [a] + [b] == [a, b];
    assert s1.imported[1..] == [(b.local, Binding(decl, b))] && s1.imported[1..][1..] == [];
    assert CollectGroups(empty, s1.imported, s1.used) == CollectGroups([(decl, [a])], s1.imported[1..], s1.used);
    assert CollectGroups([(decl, [a])], s1.imported[1..], s1.used) == CollectGroups(groups, [], s1.used);
  }

  /** `import { a, b } from "m";` with neither read: one report for the whole statement, whose fix removes
      it. */
  lemma WholeReport(decl: ImportDecl, a: Specifier, b: Specifier)
    requires TwoNamed(decl, a, b)
    ensures Lint(TwoNamedWalk(decl, a, b, [])) == [Report(decl.id, WholeImportMessage, RemoveNode(decl.id))]
  {
    TwoNamedSteps(Initial, decl, a, b, []);
    TwoNamedCollect(Initial, decl, a, b);
    WholeGroups(decl, a, b);
    var groups := [(decl, [a, b])];
    assert ReportGroups(groups) == GroupReports(decl, [a, b]) + ReportGroups(groups[1..]);
  }

  /** `import { a, b, c } from "m";`: three named specifiers binding different names. */
  predicate ThreeNamed(decl: ImportDecl, a: Specifier, b: Specifier, c: Specifier)
  {
    && decl.specifiers == Some([a, b, c])
    && a.kind == ImportSpecifier && b.kind == ImportSpecifier && c.kind == ImportSpecifier
    && a.local != b.local && b.local != c.local && a.local != c.local
  }

  /** The three bindings the declaration records, in specifier order. */
  function ThreeBindings(decl: ImportDecl, a: Specifier, b: Specifier, c: Specifier): Entries<string, Binding>
  {
    [(a.local, Binding(decl, a)), (b.local, Binding(decl, b)), (c.local, Binding(decl, c))]
  }

  /** The bindings recorded for three named specifiers, in specifier order. */
  lemma ThreeSpecifierBindings(decl: ImportDecl, a: Specifier, b: Specifier, c: Specifier)
    requires ThreeNamed(decl, a, b, c)
    ensures SpecifierBindings(decl, [a, b, c]) == ThreeBindings(decl, a, b, c)
  {
    assert [a, b, c][1..] == [b, c] && [b, c][1..] == [c] && [c][1..] == [];
    assert SpecifierBindings(decl, [c]) == [(c.local, Binding(decl, c))] + SpecifierBindings(decl, []);
    assert SpecifierBindings(decl, [b, c]) == [(b.local, Binding(decl, b))] + SpecifierBindings(decl, [c]);
  }

  /** Visiting the declaration records the three names, in specifier order. */
  lemma ThreeNamedCollect(decl: ImportDecl, a: Specifier, b: Specifier, c: Specifier)
    requires ThreeNamed(decl, a, b, c)
    ensures Visit(Initial, VisitImportDeclaration(decl)) == State(ThreeBindings(decl, a, b, c), {})
  {
    var bs := ThreeBindings(decl, a, b, c);
    var empty: Entries<string, Binding> := [];
    ThreeSpecifierBindings(decl, a, b, c);
    assert Keys(empty) + Keys(bs) == [a.local, b.local, c.local];
    SetAllFresh(empty, bs);
  }

  /** The declaration, then a read of `a` outside any import specifier, as the host delivers them. */
  function ThreeNamedWalk(decl: ImportDecl, a: Specifier, read: NodeId): seq<Event>
  {
    [VisitImportDeclaration(decl), VisitIdentifier(Identifier(read, a.local, Some(OtherParent)))]
  }

  /** After the walk `a` is used and `b`, `c` are not. */
  lemma ThreeNamedState(decl: ImportDecl, a: Specifier, b: Specifier, c: Specifier, read: NodeId)
    requires ThreeNamed(decl, a, b, c)
    ensures Walk(Initial, ThreeNamedWalk(decl, a, read)) == State(ThreeBindings(decl, a, b, c), {a.local})
  {
    var r := VisitIdentifier(Identifier(read, a.local, Some(OtherParent)));
    var s1 := State(ThreeBindings(decl, a, b, c), {});
    assert ThreeNamedWalk(decl, a, read) == [VisitImportDeclaration(decl)] + ([r] + []);
    WalkCons(Initial, VisitImportDeclaration(decl), [r] + []);
    ThreeNamedCollect(decl, a, b, c);
    WalkCons(s1, r, []);
    assert {} + {a.local} == {a.local};
  }

  /** One step of the grouping loop: the first entry is pushed onto its declaration's group when unused. */
  lemma CollectStep(groups: GroupMap, x: (string, Binding), rest: Entries<string, Binding>, used: set<string>)
    ensures CollectGroups(groups, [x] + rest, used) ==
      CollectGroups(if x.0 !in used then Push(groups, x.1.node, x.1.spec) else groups, rest, used)
  {
    assert ([x] + rest)[1..] == rest;
  }

  /** The two unused specifiers form one group, in specifier order. */
  lemma ThreeNamedGroups(decl: ImportDecl, a: Specifier, b: Specifier, c: Specifier)
    requires ThreeNamed(decl, a, b, c)
    ensures Groups(State(ThreeBindings(decl, a, b, c), {a.local})) == [(decl, [b, c])]
  {
    var xa, xb, xc := (a.local, Binding(decl, a)), (b.local, Binding(decl, b)), (c.local, Binding(decl, c));
    var empty: GroupMap := [];
    var none: Entries<string, Binding> := [];
    assert ThreeBindings(decl, a, b, c) == [xa] + ([xb] + ([xc] + none));
    CollectStep(empty, xa, [xb] + ([xc] + none), {a.local});
    CollectStep(empty, xb, [xc] + none, {a.local});
    PushFresh(empty, decl, b);
    CollectStep([(decl, [b])], xc, none, {a.local});
    PushSingleton(decl, [b], c);
    assert [b] + [c] == [b, c];
  }

  /** The fixes of the two unused specifiers: `b` is not last, so its cut runs to the start of `c`; `c` is
      last, so its cut runs from the end of `b`. */
  lemma ThreeNamedFixes(decl: ImportDecl, a: Specifier, b: Specifier, c: Specifier)
    requires ThreeNamed(decl, a, b, c)
    ensures SpecifierFix(decl, b) == RemoveRange(b.range.start, c.range.start)
    ensures SpecifierFix(decl, c) == RemoveRange(b.range.end, c.range.end)
  {
    assert IndexOf([a, b, c], b) == 1 by { assert [a, b, c][1..] == [b, c]; }
    assert IndexOf([a, b, c], c) == 2 by { assert [a, b, c][1..] == [b, c] && [b, c][1..] == [c]; }
  }

  /** `import { a, b, c } from "m"; a();`: two reports, one per unused specifier and in specifier order.
      The fix for `b` removes from the start of `b` to the start of `c`; the fix for `c` removes from the
      end of `b` to the end of `c`. */
  lemma ThreeNamedReport(decl: ImportDecl, a: Specifier, b: Specifier, c: Specifier, read: NodeId)
    requires ThreeNamed(decl, a, b, c)
    ensures Lint(ThreeNamedWalk(decl, a, read)) ==
      [ Report(b.id, ImportMessage(b.local), RemoveRange(b.range.start, c.range.start)),
        Report(c.id, ImportMessage(c.local), RemoveRange(b.range.end, c.range.end))]
  {
    ThreeNamedState(decl, a, b, c, read);
    ThreeNamedGroups(decl, a, b, c);
    ThreeGroupReports(decl, a, b, c);
  }

  /** The reports built from the group of `b` and `c`. */
  lemma ThreeGroupReports(decl: ImportDecl, a: Specifier, b: Specifier, c: Specifier)
    requires ThreeNamed(decl, a, b, c)
    ensures AllOwned([(decl, [b, c])])
    ensures ReportGroups([(decl, [b, c])]) ==
      [ Report(b.id, ImportMessage(b.local), RemoveRange(b.range.start, c.range.start)),
        Report(c.id, ImportMessage(c.local), RemoveRange(b.range.end, c.range.end))]
  {
    ThreeNamedFixes(decl, a, b, c);
    var groups := [(decl, [b, c])];
    assert GroupOwned(decl, [b, c]);
    assert ReportGroups(groups) == GroupReports(decl, [b, c]) + ReportGroups(groups[1..]);
  }

  /** `import { useState, useEffect, useCallback } from "react"; useState();` with the specifiers at
      offsets 9-17, 19-28 and 30-41: `useEffect` is cut over [19, 30) and `useCallback` over [28, 41).
      The two cuts overlap on [28, 30). */
  lemma ThreeHooksExample()
    ensures var a := Specifier(1, ImportSpecifier, "useState", Range(9, 17));
      var b := Specifier(3, ImportSpecifier, "useEffect", Range(19, 28));
      var c := Specifier(5, ImportSpecifier, "useCallback", Range(30, 41));
      var decl := ImportDecl(0, Some([a, b, c]), Range(0, 60));
      Lint(ThreeNamedWalk(decl, a, 7)) ==
        [ Report(3, ImportMessage("useEffect"), RemoveRange(19, 30)),
          Report(5, ImportMessage("useCallback"), RemoveRange(28, 41))]
  {
    var a := Specifier(1, ImportSpecifier, "useState", Range(9, 17));
    var b := Specifier(3, ImportSpecifier, "useEffect", Range(19, 28));
    var c := Specifier(5, ImportSpecifier, "useCallback", Range(30, 41));
    var decl := ImportDecl(0, Some([a, b, c]), Range(0, 60));
    ThreeNamedReport(decl, a, b, c, 7);
  }

  /** `import React from "react";` with `React` never read: the only specifier is unused, so the whole
      statement is reported and its fix removes the declaration node. */
  lemma SingleDefaultReport(decl: ImportDecl, s: Specifier)
    requires decl.specifiers == Some([s]) && s.kind == ImportDefaultSpecifier
    ensures Lint([VisitImportDeclaration(decl)]) == [Report(decl.id, WholeImportMessage, RemoveNode(decl.id))]
  {
    var bs := [(s.local, Binding(decl, s))];
    assert SpecifierBindings(decl, [s]) == bs by {
      assert [s][1..] == [];
      assert SpecifierBindings(decl, [s]) == bs + SpecifierBindings(decl, []);
    }
    SetAllFresh([], bs);
    var st := State(bs, {});
    WalkCons(Initial, VisitImportDeclaration(decl), []);
    assert [VisitImportDeclaration(decl)] + [] == [VisitImportDeclaration(decl)];
    var empty: GroupMap := [];
    PushFresh(empty, decl, s);
    assert bs[1..] == [];
    assert CollectGroups(empty, bs, {}) == CollectGroups([(decl, [s])], [], {});
    var groups := [(decl, [s])];
    assert ReportGroups(groups) == GroupReports(decl, [s]) + ReportGroups(groups[1..]);
  }
}
