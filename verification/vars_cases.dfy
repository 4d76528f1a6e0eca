/** Worked cases of `no-unused-vars`: a walk as the host would deliver it and the exact reports the rule
    produces for it. */
module VarsCases {
  import opened Wrappers
  import opened Seqs
  import opened OrderedMap
  import opened Ast
  import opened Edits
  import opened UnusedVars

  /** A statement `const a = ..., b = ..., c = ...;` with three plain declarators. */
  predicate ThreePlain(d1: Declarator, d2: Declarator, d3: Declarator)
  {
    && ThreeNames(d1, d2, d3)
    && d1.id != d2.id && d2.id != d3.id
    && var decls := [Sibling(d1.id, d1.range), Sibling(d2.id, d2.range), Sibling(d3.id, d3.range)];
       d1.parent == d2.parent == d3.parent && d1.parent.VariableDeclaration? && d1.parent.declarations == decls
  }

  /** Three plain declarators of three different names. */
  predicate ThreeNames(d1: Declarator, d2: Declarator, d3: Declarator)
  {
    && d1.target.IdTarget? && d2.target.IdTarget? && d3.target.IdTarget?
    && d1.target.name != d2.target.name && d2.target.name != d3.target.name && d1.target.name != d3.target.name
  }

  /** Declaring the three names, then reading the outer two. */
  function MiddleUnread(d1: Declarator, d2: Declarator, d3: Declarator, read1: NodeId, read3: NodeId): seq<Event>
    requires ThreeNames(d1, d2, d3)
  {
    [ VisitVariableDeclarator(d1), VisitVariableDeclarator(d2), VisitVariableDeclarator(d3),
      VisitIdentifier(Identifier(read1, d1.target.name, Some(OtherParent))),
      VisitIdentifier(Identifier(read3, d3.target.name, Some(OtherParent)))]
  }

  /** The walk's final state: the three declarators in source order, the outer two names read. */
  lemma MiddleUnreadWalk(d1: Declarator, d2: Declarator, d3: Declarator, read1: NodeId, read3: NodeId)
    requires ThreeNames(d1, d2, d3)
    ensures Walk(Initial, MiddleUnread(d1, d2, d3, read1, read3)) ==
      State([(d1.target.name, d1), (d2.target.name, d2), (d3.target.name, d3)], {d1.target.name, d3.target.name}, {})
  {
    var a, b, c := d1.target.name, d2.target.name, d3.target.name;
    var declare := [VisitVariableDeclarator(d1), VisitVariableDeclarator(d2), VisitVariableDeclarator(d3)];
    var uses := [VisitIdentifier(Identifier(read1, a, Some(OtherParent))), VisitIdentifier(Identifier(read3, c, Some(OtherParent)))];
    assert MiddleUnread(d1, d2, d3, read1, read3) == declare + uses;
    WalkAppend(Initial, declare, uses);
    DeclareThree(d1, d2, d3);
    var s3 := State([(a, d1), (b, d2), (c, d3)], {}, {});
    ReadTwo(s3, read1, a, read3, c);
    assert s3.used + {a, c} == {a, c};
  }

  /** Declaring three different names records them in order. */
  lemma DeclareThree(d1: Declarator, d2: Declarator, d3: Declarator)
    requires ThreeNames(d1, d2, d3)
    ensures Walk(Initial, [VisitVariableDeclarator(d1), VisitVariableDeclarator(d2), VisitVariableDeclarator(d3)]) ==
      State([(d1.target.name, d1), (d2.target.name, d2), (d3.target.name, d3)], {}, {})
  {
    var a, b, c := d1.target.name, d2.target.name, d3.target.name;
    DeclareFirst(d1);
    DeclareSecond(d1, d2);
    DeclareThird(d1, d2, d3);
    WalkThree(Initial, State([(a, d1)], {}, {}), State([(a, d1), (b, d2)], {}, {}),
              VisitVariableDeclarator(d1), VisitVariableDeclarator(d2), VisitVariableDeclarator(d3));
  }

  lemma DeclareFirst(d1: Declarator)
    requires d1.target.IdTarget?
    ensures Visit(Initial, VisitVariableDeclarator(d1)) == State([(d1.target.name, d1)], {}, {})
  {
    FreshPlainDeclarator(Initial, d1);
    assert [] + [(d1.target.name, d1)] == [(d1.target.name, d1)];
  }

  lemma DeclareSecond(d1: Declarator, d2: Declarator)
    requires d1.target.IdTarget? && d2.target.IdTarget? && d1.target.name != d2.target.name
    ensures Visit(State([(d1.target.name, d1)], {}, {}), VisitVariableDeclarator(d2)) ==
      State([(d1.target.name, d1), (d2.target.name, d2)], {}, {})
  {
    var m := [(d1.target.name, d1)];
    assert Keys(m) == [d1.target.name];
    FreshPlainDeclarator(State(m, {}, {}), d2);
    assert m + [(d2.target.name, d2)] == [(d1.target.name, d1), (d2.target.name, d2)];
  }

  lemma DeclareThird(d1: Declarator, d2: Declarator, d3: Declarator)
    requires ThreeNames(d1, d2, d3)
    ensures Visit(State([(d1.target.name, d1), (d2.target.name, d2)], {}, {}), VisitVariableDeclarator(d3)) ==
      State([(d1.target.name, d1), (d2.target.name, d2), (d3.target.name, d3)], {}, {})
  {
    var m := [(d1.target.name, d1), (d2.target.name, d2)];
    assert Keys(m) == [d1.target.name, d2.target.name];
    FreshPlainDeclarator(State(m, {}, {}), d3);
    assert m + [(d3.target.name, d3)] == [(d1.target.name, d1), (d2.target.name, d2), (d3.target.name, d3)];
  }

  /** Two ordinary reads mark both names used. */
  lemma ReadTwo(st: State, id1: NodeId, n1: string, id2: NodeId, n2: string)
    ensures Walk(st, [VisitIdentifier(Identifier(id1, n1, Some(OtherParent))), VisitIdentifier(Identifier(id2, n2, Some(OtherParent)))])
         == st.(used := st.used + {n1, n2})
  {
    var s1 := st.(used := st.used + {n1});
    var s2 := s1.(used := s1.used + {n2});
    OtherRead(st, id1, n1);
    OtherRead(s1, id2, n2);
    WalkTwo(st, s1, VisitIdentifier(Identifier(id1, n1, Some(OtherParent))), VisitIdentifier(Identifier(id2, n2, Some(OtherParent))));
    assert s2.used == st.used + {n1, n2};
  }

  /** Reading a name in an ordinary expression marks it used. */
  lemma OtherRead(st: State, id: NodeId, name: string)
    ensures Visit(st, VisitIdentifier(Identifier(id, name, Some(OtherParent)))) == st.(used := st.used + {name})
  {
  }

  /** An unread middle declarator is the only report, and its fix removes it together with the comma
      after it, up to the start of the next declarator. */
  lemma MiddleUnreadReport(d1: Declarator, d2: Declarator, d3: Declarator, read1: NodeId, read3: NodeId)
    requires ThreePlain(d1, d2, d3)
    ensures Lint(MiddleUnread(d1, d2, d3, read1, read3)) ==
      [Report(d2.id, VariableMessage(d2.target.name), RemoveRange(d2.range.start, d3.range.start))]
  {
    MiddleUnreadWalk(d1, d2, d3, read1, read3);
    MiddleFix(d1, d2, d3);
    var a, b, c := d1.target.name, d2.target.name, d3.target.name;
    var declared := [(a, d1), (b, d2), (c, d3)];
    ReportEntriesStep(declared, {a, c}, {});
    assert declared[1..] == [(b, d2), (c, d3)];
    ReportsOfTwo(d2, d3, b, c, {a, c});
  }

  /** The middle declarator of three is cut up to the start of the next one. */
  lemma MiddleFix(d1: Declarator, d2: Declarator, d3: Declarator)
    requires ThreePlain(d1, d2, d3)
    ensures DeclaratorFix(d2) == RemoveRange(d2.range.start, d3.range.start)
  {
    var decls := d2.parent.declarations;
    assert IndexOf(decls, Sibling(d2.id, d2.range)) == 1 by {
      assert decls[0] != Sibling(d2.id, d2.range) && decls[1] == Sibling(d2.id, d2.range);
    }
  }

  /** The reports for two recorded names, with no parameters. */
  lemma ReportsOfTwo(d: Declarator, e: Declarator, x: string, y: string, used: set<string>)
    ensures ReportEntries([(x, d), (y, e)], used, {}) ==
      (if x in used then [] else [Report(d.id, VariableMessage(x), DeclaratorFix(d))]) +
      (if y in used then [] else [Report(e.id, VariableMessage(y), DeclaratorFix(e))])
  {
    var declared := [(x, d), (y, e)];
    ReportEntriesStep(declared, used, {});
    ReportEntriesStep(declared[1..], used, {});
    assert declared[1..][1..] == [];
  }

  /** `const used = 1, unused = 2, alsoUsed = 3;` with `used` and `alsoUsed` read: one report, whose fix
      removes `unused = 2, ` (offsets 16 to 28) and leaves `const used = 1, alsoUsed = 3;`. */
  lemma ThreeDeclaratorsExample()
    ensures
      var decls := [Sibling(1, Range(6, 14)), Sibling(2, Range(16, 26)), Sibling(3, Range(28, 41))];
      var statement := VariableDeclaration(0, decls);
      var used := Declarator(1, IdTarget(11, "used"), Range(6, 14), statement);
      var unused := Declarator(2, IdTarget(12, "unused"), Range(16, 26), statement);
      var alsoUsed := Declarator(3, IdTarget(13, "alsoUsed"), Range(28, 41), statement);
      Lint(MiddleUnread(used, unused, alsoUsed, 20, 21)) == [Report(2, VariableMessage("unused"), RemoveRange(16, 28))]
  {
    var decls := [Sibling(1, Range(6, 14)), Sibling(2, Range(16, 26)), Sibling(3, Range(28, 41))];
    var statement := VariableDeclaration(0, decls);
    var used := Declarator(1, IdTarget(11, "used"), Range(6, 14), statement);
    var unused := Declarator(2, IdTarget(12, "unused"), Range(16, 26), statement);
    var alsoUsed := Declarator(3, IdTarget(13, "alsoUsed"), Range(28, 41), statement);
    MiddleUnreadReport(used, unused, alsoUsed, 20, 21);
  }

  /** `const [, second, , fourth] = array;` with nothing read: one report per identifier element, none
      for the holes, in pattern order. The hand-built declarator is missing from its parent's empty
      `declarations`, so each fix would throw when invoked. */
  lemma ArrayHolesReport(d: Declarator, second: Leaf, fourth: Leaf)
    requires second.IdentLeaf? && fourth.IdentLeaf? && second.name != fourth.name
    requires d.target == ArrayPattern([None, Some(second), None, Some(fourth)])
    requires d.parent == VariableDeclaration(d.parent.id, [])
    ensures Lint([VisitVariableDeclarator(d)]) ==
      [Report(d.id, VariableMessage(second.name), Throws), Report(d.id, VariableMessage(fourth.name), Throws)]
  {
    var elems := [None, Some(second), None, Some(fourth)];
    assert ElementNames(elems) == [second.name, fourth.name] by {
      assert elems[1..][1..][1..][1..] == [];
      assert ElementNames(elems[1..][1..][1..]) == [fourth.name];
      assert ElementNames(elems[1..][1..]) == [fourth.name];
      assert ElementNames(elems[1..]) == [second.name, fourth.name];
    }
    RecordsTwo(d, second.name, fourth.name);
    WalkOne(Initial, VisitVariableDeclarator(d));
    ReportsOfTwo(d, d, second.name, fourth.name, {});
  }

  /** A declarator binding two different names records both against itself, in order. */
  lemma RecordsTwo(d: Declarator, x: string, y: string)
    requires BoundNames(d.target) == [x, y] && x != y
    ensures Visit(Initial, VisitVariableDeclarator(d)) == State([(x, d), (y, d)], {}, {})
  {
    var declared := [(x, d), (y, d)];
    assert WithDeclarator(BoundNames(d.target), d) == declared;
    assert Keys(declared) == [x, y];
    SetAllFresh([], declared);
    assert [] + declared == declared;
  }

  /** `export const exported = 1;` with nothing read is still reported: the visitor never looks past the
      declarator's parent, so an enclosing `export` does not exempt it. */
  lemma ExportedDeclarationReported(d: Declarator)
    requires d.target.IdTarget?
    requires d.parent == VariableDeclaration(d.parent.id, [Sibling(d.id, d.range)])
    ensures Lint([VisitVariableDeclarator(d)]) == [Report(d.id, VariableMessage(d.target.name), RemoveNode(d.parent.id))]
  {
    FreshPlainDeclarator(Initial, d);
    assert [] + [(d.target.name, d)] == [(d.target.name, d)];
    WalkOne(Initial, VisitVariableDeclarator(d));
    ReportEntriesStep([(d.target.name, d)], {}, {});
  }

  /** `const { a, b } = obj;` with only `a` read afterwards, walked without the pattern's own
      identifiers: `b` is reported, and its fix removes the whole statement, `a` included. */
  lemma DestructuredFixRemovesReadName(d: Declarator, a: PatternProperty, b: PatternProperty, read: NodeId)
    requires a.Property? && a.value.IdentLeaf? && b.Property? && b.value.IdentLeaf? && a.value.name != b.value.name
    requires d.target == ObjectPattern([a, b])
    requires d.parent == VariableDeclaration(d.parent.id, [Sibling(d.id, d.range)])
    ensures var events := [VisitVariableDeclarator(d), VisitIdentifier(Identifier(read, a.value.name, Some(OtherParent)))];
      Lint(events) == [Report(d.id, VariableMessage(b.value.name), RemoveNode(d.parent.id))]
  {
    var x, y := a.value.name, b.value.name;
    var props := [a, b];
    assert PropertyNames(props) == [x, y] by {
      assert props[1..][1..] == [];
      assert PropertyNames(props[1..]) == [y];
    }
    RecordsTwo(d, x, y);
    var s1 := State([(x, d), (y, d)], {}, {});
    WalkTwo(Initial, s1, VisitVariableDeclarator(d), VisitIdentifier(Identifier(read, x, Some(OtherParent))));
    OtherRead(s1, read, x);
    assert {} + {x} == {x};
    ReportsOfTwo(d, d, x, y, {x});
  }
}
