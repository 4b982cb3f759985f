/**
 * Query filters over JSON pointers, as a tagged union of node kinds, with a
 * structural field-transforming map (the field-transformer visitor) and an
 * evaluator that says which records a filter selects.
 */
module QueryFilters {
  import opened Wrappers

  /** A JSON pointer, as its sequence of reference tokens (`/a/b` is ["a", "b"]). */
  type Pointer = seq<string>

  /** A JSON scalar a filter can compare against. */
  datatype Value = Str(s: string) | Num(n: int)

  datatype Op =
    | Equal
    | Contains
    | StartsWith
    | GreaterThan
    | GreaterThanOrEqual
    | LessThan
    | LessThanOrEqual
    | ExtendedMatch(operator: string)

  datatype Filter =
    | Comparison(op: Op, field: Pointer, value: Value)
    | Present(field: Pointer)
    | Literal(b: bool)
    | And(subs: seq<Filter>)
    | Or(subs: seq<Filter>)
    | Not(sub: Filter)

  /** The value a record holds at a pointer, if any. */
  type Lookup = Pointer -> Option<Value>

  /**
   * How the store compares a record's value with a filter's value under an
   * operator other than equality (ordering, substring, extended operators).
   */
  type Relation = (Op, Value, Value) -> bool

  /** Does the record seen through `lookup` satisfy `f`? A missing field satisfies no comparison. */
  predicate Eval(f: Filter, lookup: Lookup, holds: Relation)
  {
    match f
    case Comparison(op, p, v) =>
      lookup(p).Some? && (if op == Equal then lookup(p).value == v else holds(op, lookup(p).value, v))
    case Present(p) => lookup(p).Some?
    case Literal(b) => b
    case And(subs) => forall i :: 0 <= i < |subs| ==> Eval(subs[i], lookup, holds)
    case Or(subs) => exists i :: 0 <= i < |subs| && Eval(subs[i], lookup, holds)
    case Not(g) => !Eval(g, lookup, holds)
  }

  lemma EvalAndPair(x: Filter, y: Filter, lookup: Lookup, holds: Relation)
    ensures Eval(And([x, y]), lookup, holds) <==> Eval(x, lookup, holds) && Eval(y, lookup, holds)
  {
    var subs := [x, y];
    assert subs[0] == x && subs[1] == y;
  }

  lemma EvalOrPair(x: Filter, y: Filter, lookup: Lookup, holds: Relation)
    ensures Eval(Or([x, y]), lookup, holds) <==> Eval(x, lookup, holds) || Eval(y, lookup, holds)
  {
    var subs := [x, y];
    assert subs[0] == x && subs[1] == y;
  }

  /** Some leaf of `f` is on the field `p`. */
  predicate Mentions(f: Filter, p: Pointer)
  {
    match f
    case Comparison(_, q, _) => q == p
    case Present(q) => q == p
    case Literal(_) => false
    case And(subs) => exists i :: 0 <= i < |subs| && Mentions(subs[i], p)
    case Or(subs) => exists i :: 0 <= i < |subs| && Mentions(subs[i], p)
    case Not(g) => Mentions(g, p)
  }

  /**
   * Rewrites the field of every leaf with `t`, leaving the tree itself as it
   * is; `t` need only be defined on the fields the filter mentions.
   */
  function MapFields(f: Filter, t: Pointer --> Pointer): Filter
    requires forall p :: Mentions(f, p) ==> t.requires(p)
  {
    match f
    case Comparison(op, p, v) => assert Mentions(f, p); Comparison(op, t(p), v)
    case Present(p) => assert Mentions(f, p); Present(t(p))
    case Literal(b) => Literal(b)
    case And(subs) => And(seq(|subs|, i requires 0 <= i < |subs| => MentionsOfSub(f, i); MapFields(subs[i], t)))
    case Or(subs) => Or(seq(|subs|, i requires 0 <= i < |subs| => MentionsOfSub(f, i); MapFields(subs[i], t)))
    case Not(g) => assert forall p :: Mentions(g, p) ==> Mentions(f, p); Not(MapFields(g, t))
  }

  /** What a sub-filter mentions, its conjunction or disjunction mentions too. */
  lemma MentionsOfSub(f: Filter, i: int)
    requires (f.And? || f.Or?) && 0 <= i < |f.subs|
    ensures forall p :: Mentions(f.subs[i], p) ==> Mentions(f, p)
  {
  }

  /** `f` and `g` have the same tree: same node kinds, operators, values and arities; only leaf fields may differ. */
  predicate SameShape(f: Filter, g: Filter)
  {
    match f
    case Comparison(op, _, v) => g.Comparison? && g.op == op && g.value == v
    case Present(_) => g.Present?
    case Literal(b) => g == Literal(b)
    case And(subs) =>
      g.And? && |g.subs| == |subs| && forall i :: 0 <= i < |subs| ==> SameShape(subs[i], g.subs[i])
    case Or(subs) =>
      g.Or? && |g.subs| == |subs| && forall i :: 0 <= i < |subs| ==> SameShape(subs[i], g.subs[i])
    case Not(h) => g.Not? && SameShape(h, g.sub)
  }

  /** Rewriting the fields keeps the composite structure of the filter. */
  lemma {:induction false} MapFieldsKeepsShape(f: Filter, t: Pointer --> Pointer)
    requires forall p :: Mentions(f, p) ==> t.requires(p)
    ensures SameShape(f, MapFields(f, t))
  {
    match f
    case Comparison(_, _, _) =>
    case Present(_) =>
    case Literal(_) =>
    case And(subs) =>
      forall i | 0 <= i < |subs| ensures SameShape(subs[i], MapFields(f, t).subs[i]) {
        MapFieldsKeepsShape(subs[i], t);
      }
    case Or(subs) =>
      forall i | 0 <= i < |subs| ensures SameShape(subs[i], MapFields(f, t).subs[i]) {
        MapFieldsKeepsShape(subs[i], t);
      }
    case Not(g) =>
      MapFieldsKeepsShape(g, t);
  }

  /**
   * Evaluating a field-rewritten filter against a record is evaluating the
   * original filter against the view that reads each field through `t`.
   */
  lemma {:induction false} EvalMapFields(f: Filter, t: Pointer --> Pointer, lookup: Lookup, view: Lookup, holds: Relation)
    requires forall p :: Mentions(f, p) ==> t.requires(p)
    requires forall p :: Mentions(f, p) ==> t.requires(p) && view(p) == lookup(t(p))
    ensures Eval(MapFields(f, t), lookup, holds) == Eval(f, view, holds)
  {
    match f
    case Comparison(_, p, _) =>
      assert view(p) == lookup(t(p));
    case Present(p) =>
      assert view(p) == lookup(t(p));
    case Literal(_) =>
    case And(subs) =>
      var m := MapFields(f, t).subs;
      forall i | 0 <= i < |subs| ensures Eval(m[i], lookup, holds) == Eval(subs[i], view, holds) {
        EvalMapFields(subs[i], t, lookup, view, holds);
      }
    case Or(subs) =>
      var m := MapFields(f, t).subs;
      forall i | 0 <= i < |subs| ensures Eval(m[i], lookup, holds) == Eval(subs[i], view, holds) {
        EvalMapFields(subs[i], t, lookup, view, holds);
      }
    case Not(g) =>
      EvalMapFields(g, t, lookup, view, holds);
  }
}
