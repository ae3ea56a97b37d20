/** The logical operator tree: traversers that fill in the produced and required sets of every node. */
module LogicalOperators {
  import opened QueryPlan

  datatype Kind =
    | TableScan(columns: set<IU>, table: seq<Row>)
    | Selection(condition: Exp)
    | EquiJoin(pairs: seq<(Exp, Exp)>)

  class Operator {
    const kind: Kind
    /** The only child of a selection, or the left child of a join. */
    const left: Operator?
    const right: Operator?
    var produced: set<IU>
    var required: set<IU>
    var leftRequired: set<IU>
    var rightRequired: set<IU>
    ghost const plan: Plan
    ghost const repr: set<Operator>

    /** The objects form a tree, and `plan` is the tree they form. */
    ghost predicate Shape()
      decreases plan
    {
      && this in repr
      && match kind
         case TableScan(columns, table) =>
           left == null && right == null && plan == Scan(columns, table) && repr == {this}
         case Selection(condition) =>
           && left != null && right == null && plan == Select(condition, left.plan)
           && repr == {this} + left.repr && this !in left.repr && left.Shape()
         case EquiJoin(pairs) =>
           && left != null && right != null && plan == Join(pairs, left.plan, right.plan)
           && repr == {this} + left.repr + right.repr && this !in left.repr && this !in right.repr
           && left.repr !! right.repr && left.Shape() && right.Shape()
    }

    /** Every node knows what it produces. */
    ghost predicate ProducedUpToDate()
      requires Shape()
      reads repr
      decreases plan
    {
      && produced == Produced(plan)
      && (left != null ==> left.ProducedUpToDate())
      && (right != null ==> right.ProducedUpToDate())
    }

    /** No required set has been split yet. */
    ghost predicate Unsplit()
      requires Shape()
      reads repr
      decreases plan
    {
      && leftRequired == {} && rightRequired == {}
      && (left != null ==> left.Unsplit())
      && (right != null ==> right.Unsplit())
    }

    /** Every node knows what it requires, below a parent that expects the columns `expected`. */
    ghost predicate RequiredUpToDate(expected: set<IU>)
      requires Shape()
      reads repr
      decreases plan
    {
      && required == Required(plan, expected)
      && match kind
         case TableScan(_, _) => true
         case Selection(_) => left.RequiredUpToDate(required)
         case EquiJoin(_) =>
           && left.RequiredUpToDate(Expected(required, left.plan))
           && right.RequiredUpToDate(Expected(required, right.plan))
           && leftRequired == Side(required, left.plan) && rightRequired == Side(required, right.plan)
    }

    constructor TableScanOf(columns: set<IU>, table: seq<Row>)
      ensures Shape() && Unsplit() && plan == Scan(columns, table) && fresh(repr)
    {
      kind, left, right := TableScan(columns, table), null, null;
      produced, required, leftRequired, rightRequired := {}, {}, {}, {};
      plan, repr := Scan(columns, table), {this};
    }

    constructor SelectionOf(condition: Exp, child: Operator)
      requires child.Shape() && child.Unsplit()
      ensures Shape() && Unsplit() && plan == Select(condition, child.plan) && fresh(repr - child.repr)
    {
      kind, left, right := Selection(condition), child, null;
      produced, required, leftRequired, rightRequired := {}, {}, {}, {};
      plan, repr := Select(condition, child.plan), {this} + child.repr;
    }

    constructor EquiJoinOf(pairs: seq<(Exp, Exp)>, leftInput: Operator, rightInput: Operator)
      requires leftInput.Shape() && rightInput.Shape() && leftInput.repr !! rightInput.repr
      requires leftInput.Unsplit() && rightInput.Unsplit()
      ensures Shape() && Unsplit() && plan == Join(pairs, leftInput.plan, rightInput.plan)
      ensures fresh(repr - leftInput.repr - rightInput.repr)
    {
      kind, left, right := EquiJoin(pairs), leftInput, rightInput;
      produced, required, leftRequired, rightRequired := {}, {}, {}, {};
      plan, repr := Join(pairs, leftInput.plan, rightInput.plan), {this} + leftInput.repr + rightInput.repr;
    }

    /** Bottom up: a node is computed after its children. */
    method UpdateProducedSets()
      requires Shape() && Unsplit()
      modifies repr`produced
      ensures ProducedUpToDate() && Unsplit()
      decreases plan
    {
      match kind
      case TableScan(columns, _) =>
        produced := columns;
      case Selection(_) =>
        left.UpdateProducedSets();
        produced := left.produced;
      case EquiJoin(_) =>
        left.UpdateProducedSets();
        right.UpdateProducedSets();
        produced := left.produced + right.produced;
    }

    /** Top down: a node is computed before its children, from the required set and the arity of its
        parent; a join then splits its own set. */
    method UpdateRequiredSets(parentRequired: set<IU>, parentArity: nat)
      requires Shape() && ProducedUpToDate() && Unsplit()
      modifies repr`required, repr`leftRequired, repr`rightRequired
      ensures RequiredUpToDate(ComputeExpected(parentRequired, parentArity, Produced(plan)))
      ensures ProducedUpToDate()
      decreases plan
    {
      hide PairColumns, CollectRequired, Produced;
      var expected := ComputeExpected(parentRequired, parentArity, produced);
      required := expected;
      match kind
      case TableScan(_, _) =>
      case Selection(condition) =>
        required := required + CollectRequired(condition);
        left.UpdateRequiredSets(required, 1);
      case EquiJoin(pairs) =>
        RequirePairs(pairs);
        left.UpdateRequiredSets(required, 2);
        right.UpdateRequiredSets(required, 2);
        SplitRequiredSet();
    }

    /** The columns of all join expressions. */
    method RequirePairs(pairs: seq<(Exp, Exp)>)
      modifies this`required
      ensures required == old(required) + PairColumns(pairs)
    {
      for i := 0 to |pairs|
        invariant required == old(required) + PairColumns(pairs[..i])
      {
        assert pairs[..i + 1][..i] == pairs[..i];
        required := required + CollectRequired(pairs[i].0) + CollectRequired(pairs[i].1);
      }
      assert pairs[..|pairs|] == pairs;
    }

    /** The columns of the required set that come from the left child and those from the right. */
    method SplitRequiredSet()
      requires left != null && right != null
      modifies this`leftRequired, this`rightRequired
      ensures leftRequired == old(leftRequired) + required * left.required
      ensures rightRequired == old(rightRequired) + required * right.required
    {
      leftRequired := leftRequired + required * left.required;
      rightRequired := rightRequired + required * right.required;
    }
  }

  /** With more than one child, a parent's required set also holds columns of the other branches. */
  function ComputeExpected(parentRequired: set<IU>, parentArity: nat, produced: set<IU>): set<IU>
  {
    if parentArity > 1 then parentRequired * produced else parentRequired
  }

  /** The root of a query: requires what was selected. */
  class Result {
    const child: Operator
    const selection: set<IU>

    constructor (child: Operator, selection: set<IU>)
      ensures this.child == child && this.selection == selection
    {
      this.child, this.selection := child, selection;
    }

    method UpdateSets()
      requires child.Shape() && child.Unsplit()
      modifies child.repr
      ensures child.ProducedUpToDate() && child.RequiredUpToDate(selection)
    {
      child.UpdateProducedSets();
      child.UpdateRequiredSets(selection, 1);
    }
  }
}
