/** What a rule hands back to the host: diagnostics with their fixes, and the sibling-range
    arithmetic both rules use to cut one member out of a comma-separated list. */
module Edits {
  import opened Ast

  /** The outcome of the host's `fix(fixer)` callback: it returns `fixer.remove(node)`,
      `fixer.removeRange([start, end])` or `undefined`, or it throws (a property read on `undefined`). */
  datatype Fix = RemoveNode(node: NodeId) | RemoveRange(start: int, end: int) | NoFix | Throws

  /** The argument of one `context.report` call. */
  datatype Report = Report(node: NodeId, message: string, fix: Fix)

  const WholeImportMessage: string := "Unused import"

  function ImportMessage(name: string): string
  {
    "Unused import '" + name + "'"
  }

  function VariableMessage(name: string): string
  {
    "Unused variable '" + name + "'"
  }

  /** `prefix + x + "'"` determines `x`. */
  lemma QuotedInjective(prefix: string, a: string, b: string)
    requires prefix + a + "'" == prefix + b + "'"
    ensures a == b
  {
    var s := prefix + a + "'";
    assert |a| == |b|;
    forall i | 0 <= i < |a|
      ensures a[i] == b[i]
    {
      assert s[|prefix| + i] == a[i];
      assert (prefix + b + "'")[|prefix| + i] == b[i];
    }
  }

  /** Distinct names give distinct per-specifier messages, none equal to the whole-statement one. */
  lemma ImportMessageInjective(a: string, b: string)
    ensures ImportMessage(a) == ImportMessage(b) <==> a == b
    ensures ImportMessage(a) != WholeImportMessage
  {
    if ImportMessage(a) == ImportMessage(b) {
      QuotedInjective("Unused import '", a, b);
    }
  }

  /** Distinct names give distinct variable messages. */
  lemma VariableMessageInjective(a: string, b: string)
    ensures VariableMessage(a) == VariableMessage(b) <==> a == b
  {
    if VariableMessage(a) == VariableMessage(b) {
      QuotedInjective("Unused variable '", a, b);
    }
  }

  /** Sibling ranges in source order: each non-empty, each ending no later than any later one starts. */
  predicate Ordered(rs: seq<Range>)
  {
    && (forall i :: 0 <= i < |rs| ==> rs[i].start < rs[i].end)
    && (forall i, j :: 0 <= i < j < |rs| ==> rs[i].end <= rs[j].start)
  }

  /** The deletion range for the member at `index` of a list of siblings whose ranges are `siblings`;
      `own` is the member's own range. The last member (when it is not also the first) takes the
      separator before it, back to the end of its predecessor; any other member takes the separator
      after it, up to the start of its successor. */
  function CutRange(own: Range, siblings: seq<Range>, index: nat): (r: Range)
    requires index < |siblings|
    ensures Ordered(siblings) && siblings[index] == own && |siblings| >= 2 ==>
      && r.start <= own.start && own.end <= r.end
      && r.start < r.end
      && (forall j :: 0 <= j < |siblings| && j != index ==>
            siblings[j].end <= r.start || r.end <= siblings[j].start)
      && (if index + 1 < |siblings| then r.end == siblings[index + 1].start
          else r.start == siblings[index - 1].end)
  {
    var isLast := index == |siblings| - 1;
    var isFirst := index == 0;
    if isLast && !isFirst then Range(siblings[index - 1].end, own.end)
    else if !isLast then Range(own.start, siblings[index + 1].start)
    else own
  }
}
