/**
 * Search predicates over articles and the optional-clause builder that
 * composes them: a clause is conjoined only when its parameter is present.
 */
module Query {
  import opened Common
  import opened Strings
  import opened Domain

  /** The predicate shapes a search can produce. */
  datatype Pred =
    | NotDeleted
    | AuthorEqIc(author: string)
    | KeywordEqIc(keyword: string)
    | After(date: Date)
    | Before(date: Date)
    | And(left: Pred, right: Pred)

  /** Some element of `xs` equals `s` ignoring case (`any().equalsIgnoreCase(s)`). */
  predicate AnyEqualsIgnoreCase(xs: seq<string>, s: string) {
    exists i :: 0 <= i < |xs| && EqualsIgnoreCase(xs[i], s)
  }

  /** Whether the article `a` satisfies `p`; `After`/`Before` are strict. */
  predicate Eval(p: Pred, a: ArticleDocument) {
    match p
    case NotDeleted => !a.deleted
    case AuthorEqIc(s) => AnyEqualsIgnoreCase(a.authors, s)
    case KeywordEqIc(s) => AnyEqualsIgnoreCase(a.keywords, s)
    case After(d) => a.publishDate > d
    case Before(d) => a.publishDate < d
    case And(l, r) => Eval(l, a) && Eval(r, a)
  }

  /**
   * Against a canonical (upper-case) list, a case-insensitive clause is plain
   * membership of the upper-cased search term.
   */
  lemma AnyEqualsIgnoreCaseOnUpper(xs: seq<string>, s: string)
    requires forall i :: 0 <= i < |xs| ==> IsUpper(xs[i])
    ensures AnyEqualsIgnoreCase(xs, s) <==> Upper(s) in xs
  {
    if AnyEqualsIgnoreCase(xs, s) {
      var i :| 0 <= i < |xs| && EqualsIgnoreCase(xs[i], s);
      EqualsIgnoreCaseIff(xs[i], s);
      UpperFixesUpper(xs[i]);
    }
    if Upper(s) in xs {
      var i :| 0 <= i < |xs| && xs[i] == Upper(s);
      EqualsIgnoreCaseIff(xs[i], s);
      UpperFixesUpper(xs[i]);
    }
  }

  /**
   * On a canonical list, a case-insensitive clause finds exactly the labels
   * that were given in any case: the clause holds iff one of the original
   * labels equals the search term ignoring case.
   */
  lemma CaseInsensitiveMatchOnCanonicalForm(labels: set<string>, s: string)
    ensures AnyEqualsIgnoreCase(SortAndCapitalize(labels), s) <==>
            exists x :: x in labels && EqualsIgnoreCase(x, s)
  {
    CanonicalFormShape(labels);
    AnyEqualsIgnoreCaseOnUpper(SortAndCapitalize(labels), s);
    CanonicalFormMembership(labels, Upper(s));
    forall x ensures EqualsIgnoreCase(x, s) <==> Upper(x) == Upper(s) {
      EqualsIgnoreCaseIff(x, s);
    }
  }

  /**
   * An immutable builder around a predicate. `NotNullAnd` never changes the
   * receiver: it returns it as is, or a new builder with one more clause.
   */
  datatype Builder = Builder(expression: Pred) {

    /** Conjoins `clause(value)` when `value` is present; otherwise `clause` is not applied. */
    function NotNullAnd<T>(clause: T -> Pred, value: Option<T>): (b: Builder)
      ensures value.None? ==> b == this
      ensures value.Some? ==> b.expression == And(expression, clause(value.value))
    {
      match value
      case None => this
      case Some(v) => Builder(And(expression, clause(v)))
    }

    function Build(): Pred {
      expression
    }
  }

  /** The built predicate of one `NotNullAnd` step holds iff the receiver's does and, when the value is present, the clause does. */
  lemma NotNullAndEval<T>(b: Builder, clause: T -> Pred, value: Option<T>, a: ArticleDocument)
    ensures Eval(b.NotNullAnd(clause, value).Build(), a) <==>
            Eval(b.Build(), a) && (value.Some? ==> Eval(clause(value.value), a))
  {
  }

  /** A chain of `NotNullAnd` calls, one per optional clause, in call order. */
  function Chain(b: Builder, clauses: seq<Option<Pred>>): Builder
    decreases |clauses|
  {
    if clauses == [] then b
    else Chain(b.NotNullAnd((c: Pred) => c, clauses[0]), clauses[1..])
  }

  /** The clauses that are present, in order. */
  function Present(clauses: seq<Option<Pred>>): seq<Pred>
    decreases |clauses|
  {
    if clauses == [] then []
    else (if clauses[0].Some? then [clauses[0].value] else []) + Present(clauses[1..])
  }

  /**
   * The conjuncts along the left spine of `p`, leftmost first: the first is
   * the builder's initial predicate, which is no conjunction itself, and the
   * last is the clause conjoined most recently.
   */
  function Conjuncts(p: Pred): (r: seq<Pred>)
    ensures |r| > 0
    ensures !r[0].And?
    ensures p.And? ==> r[|r| - 1] == p.right
  {
    if p.And? then Conjuncts(p.left) + [p.right] else [p]
  }

  /** Every predicate of `ps` holds of `a`. */
  predicate AllHold(ps: seq<Pred>, a: ArticleDocument) {
    forall i :: 0 <= i < |ps| ==> Eval(ps[i], a)
  }

  lemma AllHoldAppend(ps: seq<Pred>, q: Pred, a: ArticleDocument)
    ensures AllHold(ps + [q], a) <==> AllHold(ps, a) && Eval(q, a)
  {
    var c := ps + [q];
    if AllHold(c, a) {
      forall i | 0 <= i < |ps| ensures Eval(ps[i], a) {
        assert c[i] == ps[i];
      }
      assert c[|ps|] == q;
    }
    if AllHold(ps, a) && Eval(q, a) {
      forall i | 0 <= i < |c| ensures Eval(c[i], a) {
        if i < |ps| { assert c[i] == ps[i]; }
      }
    }
  }

  /** A conjunction holds exactly when each of its conjuncts holds. */
  lemma {:induction false} EvalConjuncts(p: Pred, a: ArticleDocument)
    ensures Eval(p, a) <==> AllHold(Conjuncts(p), a)
  {
    if p.And? {
      EvalConjuncts(p.left, a);
      AllHoldAppend(Conjuncts(p.left), p.right, a);
    } else {
      assert Conjuncts(p)[0] == p;
    }
  }

  /** Chained calls append the present clauses after the base, left to right in call order. */
  lemma {:induction false} ChainConjuncts(b: Builder, clauses: seq<Option<Pred>>)
    ensures Conjuncts(Chain(b, clauses).Build()) == Conjuncts(b.expression) + Present(clauses)
    decreases |clauses|
  {
    if clauses != [] {
      var next := b.NotNullAnd((c: Pred) => c, clauses[0]);
      ChainConjuncts(next, clauses[1..]);
      assert Conjuncts(next.expression) == Conjuncts(b.expression) + Present(clauses[..1]);
    }
  }

  /** The built predicate holds exactly when the base and every present clause hold. */
  lemma {:induction false} ChainEval(b: Builder, clauses: seq<Option<Pred>>, a: ArticleDocument)
    ensures Eval(Chain(b, clauses).Build(), a) <==>
            Eval(b.expression, a) && forall i :: 0 <= i < |clauses| && clauses[i].Some? ==> Eval(clauses[i].value, a)
    decreases |clauses|
  {
    if clauses != [] {
      var next := b.NotNullAnd((c: Pred) => c, clauses[0]);
      ChainEval(next, clauses[1..], a);
      assert forall i :: 1 <= i < |clauses| ==> clauses[i] == clauses[1..][i - 1];
    }
  }

  /** The truth of a built predicate does not depend on the order of its clauses. */
  lemma ChainOrderIrrelevant(b: Builder, clauses: seq<Option<Pred>>, reordered: seq<Option<Pred>>, a: ArticleDocument)
    requires multiset(clauses) == multiset(reordered)
    ensures Eval(Chain(b, clauses).Build(), a) <==> Eval(Chain(b, reordered).Build(), a)
  {
    ChainEval(b, clauses, a);
    ChainEval(b, reordered, a);
    forall i | 0 <= i < |clauses| ensures clauses[i] in reordered {
      assert clauses[i] in multiset(reordered);
    }
    forall i | 0 <= i < |reordered| ensures reordered[i] in clauses {
      assert reordered[i] in multiset(clauses);
    }
  }
}
