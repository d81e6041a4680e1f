// Query expressions, their operators and their meaning.
module Expressions {

  datatype RelationalOperator =
    | Equal | NotEqual | Less | LessEqual | Greater | GreaterEqual | In | NotIn | Ni | NotNi

  function Negate(op: RelationalOperator): RelationalOperator {
    match op
    case Equal => NotEqual
    case NotEqual => Equal
    case Less => GreaterEqual
    case LessEqual => Greater
    case Greater => LessEqual
    case GreaterEqual => Less
    case In => NotIn
    case NotIn => In
    case Ni => NotNi
    case NotNi => Ni
  }

  function Flip(op: RelationalOperator): RelationalOperator {
    match op
    case Equal => Equal
    case NotEqual => NotEqual
    case Less => Greater
    case LessEqual => GreaterEqual
    case Greater => Less
    case GreaterEqual => LessEqual
    case In => Ni
    case NotIn => NotNi
    case Ni => In
    case NotNi => NotIn
  }

  /** Negating and flipping undo themselves and do not get in each other's way. */
  lemma OperatorLaws(op: RelationalOperator)
    ensures Negate(Negate(op)) == op && Negate(op) != op
    ensures Flip(Flip(op)) == op
    ensures Negate(Flip(op)) == Flip(Negate(op))
  {
  }

  datatype Data = Nil | Text(text: string) | Pattern(regex: string) | EnumKey(key: nat) | Value(id: nat)

  datatype MetaKind = TypeName | ImportTime

  datatype ExtractedType = StringType | OtherType(name: string)

  datatype Operand =
    | MetaExtractor(kind: MetaKind)
    | FieldExtractor(field: string)
    | TypeExtractor(typ: ExtractedType)
    | DataExtractor(column: nat)
    | Literal(data: Data)

  datatype Predicate = Predicate(lhs: Operand, op: RelationalOperator, rhs: Operand)

  datatype Expression =
    | Empty
    | Conjunction(ops: seq<Expression>)
    | Disjunction(ops: seq<Expression>)
    | Negation(expr: Expression)
    | Atom(pred: Predicate)

  /** An interpretation of the predicates, say for one row. */
  type Interpretation = Predicate -> bool

  /** The meaning of an expression; nothing satisfies the empty expression. */
  predicate Holds(e: Expression, i: Interpretation) {
    match e
    case Empty => false
    case Conjunction(ops) => forall x | x in ops :: Holds(x, i)
    case Disjunction(ops) => exists x | x in ops :: Holds(x, i)
    case Negation(x) => !Holds(x, i)
    case Atom(p) => i(p)
  }

  predicate NegationFree(e: Expression) {
    match e
    case Empty => true
    case Conjunction(ops) => forall x | x in ops :: NegationFree(x)
    case Disjunction(ops) => forall x | x in ops :: NegationFree(x)
    case Negation(_) => false
    case Atom(_) => true
  }

  /** No empty expression where an odd number of negations surrounds it. */
  predicate NoNegatedNil(e: Expression, negated: bool) {
    match e
    case Empty => !negated
    case Conjunction(ops) => forall x | x in ops :: NoNegatedNil(x, negated)
    case Disjunction(ops) => forall x | x in ops :: NoNegatedNil(x, negated)
    case Negation(x) => NoNegatedNil(x, !negated)
    case Atom(_) => true
  }

  /** No connective has exactly one operand. */
  predicate NoSingles(e: Expression) {
    match e
    case Empty => true
    case Conjunction(ops) => |ops| != 1 && forall x | x in ops :: NoSingles(x)
    case Disjunction(ops) => |ops| != 1 && forall x | x in ops :: NoSingles(x)
    case Negation(x) => NoSingles(x)
    case Atom(_) => true
  }

  ghost predicate Distinct(es: seq<Expression>) {
    forall j, k :: 0 <= j < k < |es| ==> es[j] != es[k]
  }

  /** No connective has an operand twice. */
  ghost predicate DistinctOperands(e: Expression) {
    match e
    case Empty => true
    case Conjunction(ops) => Distinct(ops) && forall x | x in ops :: DistinctOperands(x)
    case Disjunction(ops) => Distinct(ops) && forall x | x in ops :: DistinctOperands(x)
    case Negation(x) => DistinctOperands(x)
    case Atom(_) => true
  }

  /** No operand is a connective of the same kind. */
  predicate Flat(e: Expression) {
    match e
    case Empty => true
    case Conjunction(ops) => forall x | x in ops :: !x.Conjunction? && Flat(x)
    case Disjunction(ops) => forall x | x in ops :: !x.Disjunction? && Flat(x)
    case Negation(x) => Flat(x)
    case Atom(_) => true
  }

  /** Every predicate in an expression passes a test. */
  predicate EveryPredicate(e: Expression, test: Predicate -> bool) {
    match e
    case Empty => true
    case Conjunction(ops) => forall x | x in ops :: EveryPredicate(x, test)
    case Disjunction(ops) => forall x | x in ops :: EveryPredicate(x, test)
    case Negation(x) => EveryPredicate(x, test)
    case Atom(p) => test(p)
  }

  predicate IsExtractor(o: Operand) {
    !o.Literal?
  }

  predicate AlignedPredicate(p: Predicate) {
    IsExtractor(p.lhs) || !IsExtractor(p.rhs)
  }

  /** Where a predicate has an extractor at all, it has one on the left. */
  predicate Aligned(e: Expression) {
    EveryPredicate(e, AlignedPredicate)
  }

  function AlignPredicate(p: Predicate): Predicate {
    if AlignedPredicate(p) then p else Predicate(p.rhs, Flip(p.op), p.lhs)
  }

  function NegatePredicate(p: Predicate): Predicate {
    Predicate(p.lhs, Negate(p.op), p.rhs)
  }

  /** Putting the extractor of this predicate on the left does not change what it says. */
  predicate Flips(i: Interpretation, p: Predicate) {
    i(AlignPredicate(p)) == i(p)
  }

  /** Negating the operator of this predicate gives its complement. */
  predicate Complements(i: Interpretation, p: Predicate) {
    i(NegatePredicate(p)) == !i(p)
  }
}
