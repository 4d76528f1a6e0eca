/** The slice of the ESTree-style syntax tree that the two rules look at. Every node the rules compare
    by identity (`parent.id !== node`, `parent.value === node`, `indexOf(spec)`) carries a `NodeId`. */
module Ast {
  import opened Wrappers

  type NodeId = nat

  /** A node's `range`: source offsets `[start, end)`. */
  datatype Range = Range(start: int, end: int)

  /** The `type` of an entry in `ImportDeclaration.specifiers`. */
  datatype SpecifierKind = ImportDefaultSpecifier | ImportSpecifier | ImportNamespaceSpecifier | OtherSpecifier

  /** An import specifier; `local` is `spec.local.name`, the name it binds. */
  datatype Specifier = Specifier(id: NodeId, kind: SpecifierKind, local: string, range: Range)

  /** An `ImportDeclaration`; `specifiers` is `None` when the node has no such property. */
  datatype ImportDecl = ImportDecl(id: NodeId, specifiers: Option<seq<Specifier>>, range: Range)

  /** The parent of an `Identifier`, as far as the rules inspect it. */
  datatype Parent =
    | ImportSpecifierParent
    | ImportDefaultSpecifierParent
    | ImportNamespaceSpecifierParent
    | ExportSpecifierParent
      /** A `VariableDeclarator`; `idNode` is its `id` child. */
    | DeclaratorParent(idNode: NodeId)
      /** A `Property`; `valueNode` is its `value` child. */
    | PropertyParent(shorthand: bool, valueNode: NodeId)
      /** Any other node kind (`CallExpression`, `ArrayPattern`, a function, ...). */
    | OtherParent
  {
    /** An import or export specifier: the identifier names the binding rather than reading it. */
    predicate IsSpecifier()
    {
      ImportSpecifierParent? || ImportDefaultSpecifierParent? || ImportNamespaceSpecifierParent? || ExportSpecifierParent?
    }
  }

  /** An `Identifier` node together with its `parent` (None when it has none). */
  datatype Identifier = Identifier(id: NodeId, name: string, parent: Option<Parent>)

  /** A node that is either an `Identifier` or of some other type (a nested pattern, an
      `AssignmentPattern`, a `RestElement`, ...). */
  datatype Leaf = IdentLeaf(id: NodeId, name: string) | OtherLeaf

  /** An entry of `ObjectPattern.properties`. */
  datatype PatternProperty = Property(id: NodeId, shorthand: bool, value: Leaf) | RestElement

  /** The `id` of a `VariableDeclarator`: a plain identifier or a destructuring pattern. Array
      pattern elements are `None` for holes (`[, b]`). */
  datatype Target =
    | IdTarget(idNode: NodeId, name: string)
    | ObjectPattern(properties: seq<PatternProperty>)
    | ArrayPattern(elements: seq<Option<Leaf>>)

  /** An entry of `VariableDeclaration.declarations`, as seen through `indexOf` and `range`. */
  datatype Sibling = Sibling(id: NodeId, range: Range)

  /** The `parent` of a `VariableDeclarator`. */
  datatype DeclaratorParent =
    | VariableDeclaration(id: NodeId, declarations: seq<Sibling>)
    | OtherDeclaratorParent(id: NodeId)

  datatype Declarator = Declarator(id: NodeId, target: Target, range: Range, parent: DeclaratorParent)

  /** One visitor callback invocation by the host's traversal. */
  datatype Event =
    | VisitImportDeclaration(decl: ImportDecl)
    | VisitIdentifier(ident: Identifier)
    | VisitJsxIdentifier(name: string)
    | VisitVariableDeclarator(declarator: Declarator)
    | VisitFunctionDeclaration(params: seq<Leaf>)
    | VisitFunctionExpression(params: seq<Leaf>)
    | VisitArrowFunctionExpression(params: seq<Leaf>)
    | VisitOther
}
