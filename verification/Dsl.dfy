/** The structured detection DSL: events, condition trees, rule logic and the
    validation that bounds them (backend/detection/dsl.py). */
module Dsl {
  import opened Basics

  const MAX_NESTING_DEPTH := 8
  const MAX_PREDICATES := 100
  const MAX_IN_LIST_LENGTH := 100
  const MAX_SEQUENCE_STAGES := 8
  const MAX_WINDOW_SECONDS := 86_400
  const MICROS := 1_000_000

  /** The whitelisted event fields. */
  datatype Field =
    | EventId | Timestamp | IngestedAt | Source | Dataset | EventCategory | EventAction
    | EventOutcome | Message | Severity | SourceIp | SourcePort | DestinationIp
    | DestinationPort | Hostname | Username | ProcessName | ProcessCommandLine
    | FilePath | NormalizationVersion

  /** What an event column can hold; times are microseconds since the epoch. */
  datatype Value = Str(s: string) | Int(n: int) | Time(t: int)

  /** An event row. A field absent from `attrs` is NULL. */
  datatype Event = Event(id: string, time: int, attrs: map<Field, Value>) {
    function Get(f: Field): Option<Value> {
      if f == EventId then Some(Str(id))
      else if f == Timestamp then Some(Time(time))
      else if f in attrs then Some(attrs[f])
      else None
    }
  }

  /** A JSON or datetime constant written in a rule. */
  datatype Literal = LStr(s: string) | LInt(n: int) | LReal(r: real) | LBool(b: bool) | LTime(t: int)

  datatype Operand = NoValue | One(v: Literal) | Many(vs: seq<Literal>)

  datatype LeafOp =
    | Equals | NotEquals | Contains | NotContains | StartsWith | EndsWith
    | Exists | NotExists | In | NotIn | Gt | Gte | Lt | Lte
    | Before | After | OnOrBefore | OnOrAfter | CidrMatch

  datatype BoolOp = And | Or | Not

  datatype Condition =
    | Leaf(op: LeafOp, field: Field, value: Operand)
    | Group(bop: BoolOp, children: seq<Condition>)

  datatype Stage = Stage(condition: Condition, tag: Option<string>, minCount: nat)

  datatype ThresholdLogic = ThresholdLogic(
    condition: Condition, groupBy: seq<Field>, windowSeconds: int, minCount: nat,
    distinctField: Option<Field>)

  datatype SequenceLogic = SequenceLogic(
    stages: seq<Stage>, sharedKeys: seq<Field>, maxSpanSeconds: int)

  datatype DetectionLogic =
    | SingleRule(condition: Condition)
    | ThresholdRule(threshold: ThresholdLogic)
    | SequenceRule(sequence: SequenceLogic)

  predicate IsTimeOp(op: LeafOp) { op in {Before, After, OnOrBefore, OnOrAfter} }

  predicate IsNumericOp(op: LeafOp) { op in {Gt, Gte, Lt, Lte} }

  predicate IsTextOp(op: LeafOp) { op in {Contains, NotContains, StartsWith, EndsWith, CidrMatch} }

  /** The operator-specific shape check for a leaf. Python's `bool` is an `int`. */
  predicate LeafShapeOk(op: LeafOp, value: Operand) {
    && (op in {Exists, NotExists} <==> value.NoValue?)
    && (IsNumericOp(op) ==> value.One? && (value.v.LInt? || value.v.LReal? || value.v.LBool?))
    && (IsTimeOp(op) ==> value.One? && value.v.LTime?)
    && (op in {In, NotIn} ==> value.Many? && 0 < |value.vs| <= MAX_IN_LIST_LENGTH)
    && (IsTextOp(op) ==> value.One? && value.v.LStr?)
  }

  datatype LimitError = TooDeep | TooManyPredicates
  datatype LimitResult = Counted(n: nat) | Rejected(error: LimitError)

  /** Predicate count of a tree whose root sits at `depth`, or the limit it breaks. */
  function ValidateTreeLimits(c: Condition, depth: nat): LimitResult
    decreases c, 1
  {
    if depth > MAX_NESTING_DEPTH then Rejected(TooDeep)
    else if c.Leaf? || c.children == [] then Counted(1)
    else
      match SumTreeLimits(c.children, depth + 1)
      case Rejected(e) => Rejected(e)
      case Counted(total) => if total > MAX_PREDICATES then Rejected(TooManyPredicates) else Counted(total)
  }

  /** `sum(...)` over the children, stopping at the first one that raises. */
  function SumTreeLimits(cs: seq<Condition>, depth: nat): LimitResult
    decreases cs, 0
  {
    if cs == [] then Counted(0)
    else
      match ValidateTreeLimits(cs[0], depth)
      case Rejected(e) => Rejected(e)
      case Counted(n) =>
        match SumTreeLimits(cs[1..], depth)
        case Rejected(e) => Rejected(e)
        case Counted(m) => Counted(n + m)
  }

  /** `Condition.validate_shape`, which Pydantic runs on every node, children first. */
  predicate Accepted(c: Condition) {
    match c
    case Leaf(op, _, value) => LeafShapeOk(op, value)
    case Group(op, cs) =>
      && (forall i | 0 <= i < |cs| :: Accepted(cs[i]))
      && cs != [] && (op == Not ==> |cs| == 1)
      && ValidateTreeLimits(c, 1).Counted?
  }

  predicate StageOk(s: Stage) {
    Accepted(s.condition) && 1 <= s.minCount <= MAX_PREDICATES
    && (s.tag.Some? ==> 1 <= |s.tag.value| <= 100)
  }

  predicate ThresholdOk(l: ThresholdLogic) {
    Accepted(l.condition) && |l.groupBy| <= 8
    && 0 < l.windowSeconds <= MAX_WINDOW_SECONDS && 1 <= l.minCount <= MAX_PREDICATES
  }

  predicate SequenceOk(l: SequenceLogic) {
    && 0 < |l.stages| <= MAX_SEQUENCE_STAGES && |l.sharedKeys| <= 8
    && (forall i | 0 <= i < |l.stages| :: StageOk(l.stages[i]))
    && 0 < l.maxSpanSeconds <= MAX_WINDOW_SECONDS
  }

  /** `DetectionLogic.validate_rule_shape` with the field bounds of the model. */
  predicate LogicOk(l: DetectionLogic) {
    match l
    case SingleRule(c) => Accepted(c)
    case ThresholdRule(t) => ThresholdOk(t)
    case SequenceRule(q) => SequenceOk(q)
  }

  // ---- What the limits mean ------------------------------------------------

  function Max(a: nat, b: nat): nat { if a < b then b else a }

  function Height(c: Condition): nat decreases c, 1 {
    if c.Leaf? then 1 else 1 + MaxHeight(c.children)
  }

  function MaxHeight(cs: seq<Condition>): nat
    decreases cs, 0
  {
    if cs == [] then 0 else Max(Height(cs[0]), MaxHeight(cs[1..]))
  }

  function Leaves(c: Condition): nat decreases c, 1 {
    if c.Leaf? || c.children == [] then 1 else SumLeaves(c.children)
  }

  function SumLeaves(cs: seq<Condition>): nat
    decreases cs, 0
  {
    if cs == [] then 0 else Leaves(cs[0]) + SumLeaves(cs[1..])
  }

  function Nodes(c: Condition): nat decreases c, 1 {
    if c.Leaf? then 1 else 1 + SumNodes(c.children)
  }

  function SumNodes(cs: seq<Condition>): nat
    decreases cs, 0
  {
    if cs == [] then 0 else Nodes(cs[0]) + SumNodes(cs[1..])
  }

  /** Operand shapes and child counts only: no limit is looked at. */
  predicate WellShaped(c: Condition) {
    match c
    case Leaf(op, _, value) => LeafShapeOk(op, value)
    case Group(op, cs) =>
      (forall i | 0 <= i < |cs| :: WellShaped(cs[i])) && cs != [] && (op == Not ==> |cs| == 1)
  }

  lemma {:induction false} LimitsExact(c: Condition, depth: nat)
    requires WellShaped(c)
    ensures ValidateTreeLimits(c, depth).Counted? <==>
      depth + Height(c) - 1 <= MAX_NESTING_DEPTH && Leaves(c) <= MAX_PREDICATES
    ensures ValidateTreeLimits(c, depth).Counted? ==> ValidateTreeLimits(c, depth).n == Leaves(c)
    decreases c, 1
  {
    if c.Group? && depth <= MAX_NESTING_DEPTH {
      SumLimitsExact(c.children, depth + 1);
      assert MaxHeight(c.children) >= Height(c.children[0]);
      HeightPositive(c.children[0]);
    }
  }

  lemma {:induction false} HeightPositive(c: Condition) ensures Height(c) >= 1 { }

  lemma {:induction false} SumLimitsExact(cs: seq<Condition>, depth: nat)
    requires forall i :: 0 <= i < |cs| ==> WellShaped(cs[i])
    ensures var r := SumTreeLimits(cs, depth);
      r.Counted? ==> r.n == SumLeaves(cs) && (cs != [] ==> depth + MaxHeight(cs) - 1 <= MAX_NESTING_DEPTH)
    ensures SumLeaves(cs) <= MAX_PREDICATES && (cs == [] || depth + MaxHeight(cs) - 1 <= MAX_NESTING_DEPTH)
      ==> SumTreeLimits(cs, depth).Counted?
    decreases cs, 0
  {
    if cs != [] {
      LimitsExact(cs[0], depth);
      SumLimitsExact(cs[1..], depth);
      HeightPositive(cs[0]);
    }
  }

  lemma {:induction false} ChildBelow(cs: seq<Condition>, i: nat)
    requires i < |cs|
    ensures Height(cs[i]) <= MaxHeight(cs) && Leaves(cs[i]) <= SumLeaves(cs)
    decreases |cs|
  {
    if i > 0 { ChildBelow(cs[1..], i - 1); }
  }

  /** A tree passes validation exactly when its shape is right, it is at most
      eight levels high and it has at most one hundred predicates. */
  lemma {:induction false} AcceptedExactly(c: Condition)
    ensures Accepted(c) <==>
      WellShaped(c) && (c.Group? ==> Height(c) <= MAX_NESTING_DEPTH && Leaves(c) <= MAX_PREDICATES)
  {
    if c.Group? {
      forall i | 0 <= i < |c.children|
        ensures Accepted(c.children[i]) ==> WellShaped(c.children[i])
        ensures WellShaped(c) && Height(c) <= MAX_NESTING_DEPTH && Leaves(c) <= MAX_PREDICATES
          ==> Accepted(c.children[i])
      {
        AcceptedExactly(c.children[i]);
        ChildBelow(c.children, i);
      }
      if WellShaped(c) { LimitsExact(c, 1); }
    }
  }

  /** Which operators a constant may stand behind, seen from the constant. */
  lemma OperandsExactly(op: LeafOp, f: Field, value: Operand)
    ensures Accepted(Leaf(op, f, value)) <==>
      match value {
        case NoValue => op == Exists || op == NotExists
        case Many(vs) => op == Equals || op == NotEquals || ((op == In || op == NotIn) && 1 <= |vs| <= 100)
        case One(lit) => op == Equals || op == NotEquals ||
          match lit {
            case LStr(_) => op in {Contains, NotContains, StartsWith, EndsWith, CidrMatch}
            case LTime(_) => op in {Before, After, OnOrBefore, OnOrAfter}
            case _ => op in {Gt, Gte, Lt, Lte}
          }
      }
  { }

  lemma {:induction false} LeavesPositive(c: Condition)
    requires WellShaped(c)
    ensures Leaves(c) >= 1
  {
    if c.Group? { LeavesPositive(c.children[0]); }
  }

  lemma MulMonotone(a: nat, b: nat, c: nat)
    requires b <= c
    ensures a * b <= a * c
  { }

  lemma Distribute(a: nat, b: nat, h: nat)
    ensures (a + b) * h == a * h + b * h && h * (a + b) == a * h + h * b
  { }

  lemma {:induction false} NodesBound(c: Condition)
    requires WellShaped(c)
    ensures Nodes(c) <= Leaves(c) * Height(c)
    decreases c, 1
  {
    if c.Group? {
      SumNodesBound(c.children, MaxHeight(c.children));
      LeavesPositive(c);
      Distribute(1, MaxHeight(c.children), Leaves(c));
    }
  }

  lemma {:induction false} SumNodesBound(cs: seq<Condition>, h: nat)
    requires forall i :: 0 <= i < |cs| ==> WellShaped(cs[i])
    requires MaxHeight(cs) <= h
    ensures SumNodes(cs) <= SumLeaves(cs) * h
    decreases cs, 0
  {
    if cs != [] {
      NodesBound(cs[0]);
      SumNodesBound(cs[1..], h);
      MulMonotone(Leaves(cs[0]), Height(cs[0]), h);
      Distribute(Leaves(cs[0]), SumLeaves(cs[1..]), h);
    }
  }

  /** An accepted tree never has more than 800 nodes. */
  lemma {:induction false} AcceptedNodesBound(c: Condition)
    requires Accepted(c)
    ensures Nodes(c) <= MAX_PREDICATES * MAX_NESTING_DEPTH
  {
    AcceptedExactly(c);
    NodesBound(c);
    if c.Group? {
      MulMonotone(Leaves(c), Height(c), MAX_NESTING_DEPTH);
    }
  }

  // ---- Rules as they are stored --------------------------------------------

  /** JSON has strings, numbers and booleans, but no datetimes. */
  predicate JsonOperand(value: Operand) {
    match value
    case NoValue => true
    case One(v) => !v.LTime?
    case Many(vs) => forall i | 0 <= i < |vs| :: !vs[i].LTime?
  }

  predicate JsonCondition(c: Condition) {
    match c
    case Leaf(_, _, value) => JsonOperand(value)
    case Group(_, cs) => forall i | 0 <= i < |cs| :: JsonCondition(cs[i])
  }

  /** The constant stands somewhere in the condition. */
  ghost predicate Writes(c: Condition, lit: Literal) {
    match c
    case Leaf(_, _, value) => value == One(lit) || (value.Many? && lit in value.vs)
    case Group(_, cs) => exists i | 0 <= i < |cs| :: Writes(cs[i], lit)
  }

  /** What JSON can hold is what has no datetime constant anywhere. */
  lemma {:induction false} JsonExactly(c: Condition)
    ensures JsonCondition(c) <==> forall t :: !Writes(c, LTime(t))
  {
    match c
    case Leaf(_, _, value) =>
      if value.One? && value.v.LTime? { assert Writes(c, LTime(value.v.t)); }
      if value.Many? {
        forall i | 0 <= i < |value.vs| && value.vs[i].LTime? ensures Writes(c, LTime(value.vs[i].t)) {
          assert value.vs[i] in value.vs;
        }
      }
    case Group(_, cs) =>
      forall i | 0 <= i < |cs| ensures JsonCondition(cs[i]) <==> forall t :: !Writes(cs[i], LTime(t)) {
        JsonExactly(cs[i]);
      }
      if i, t :| 0 <= i < |cs| && Writes(cs[i], LTime(t)) { assert Writes(c, LTime(t)); }
  }

  function Conditions(l: DetectionLogic): seq<Condition> {
    match l
    case SingleRule(c) => [c]
    case ThresholdRule(t) => [t.condition]
    case SequenceRule(q) => seq(|q.stages|, k requires 0 <= k < |q.stages| => q.stages[k].condition)
  }

  predicate JsonLogic(l: DetectionLogic) {
    forall k | 0 <= k < |Conditions(l)| :: JsonCondition(Conditions(l)[k])
  }

  /** `parse_logic` on a stored JSON column; `None` is an empty column or any other JSON. */
  function ParseLogic(stored: Option<DetectionLogic>): Option<DetectionLogic> {
    if stored.Some? && JsonLogic(stored.value) && LogicOk(stored.value) then stored else None
  }

  /** A condition as a stored rule may have it. */
  ghost predicate Fit(c: Condition) {
    WellShaped(c) && JsonCondition(c) && (c.Group? ==> Height(c) <= 8 && Leaves(c) <= 100)
  }

  ghost predicate StageFit(s: Stage) {
    Fit(s.condition) && 1 <= s.minCount <= 100 && (s.tag.Some? ==> 1 <= |s.tag.value| <= 100)
  }

  /** What `parse_logic` lets through, in numbers: it returns the rule as it stands exactly
      when every condition fits and the counts and spans are in range. */
  lemma ParsedExactly(l: DetectionLogic)
    ensures ParseLogic(Some(l)) == Some(l) <==>
      match l {
        case SingleRule(c) => Fit(c)
        case ThresholdRule(t) =>
          Fit(t.condition) && |t.groupBy| <= 8 && 1 <= t.windowSeconds <= 86_400 && 1 <= t.minCount <= 100
        case SequenceRule(q) =>
          && 1 <= |q.stages| <= 8 && |q.sharedKeys| <= 8 && 1 <= q.maxSpanSeconds <= 86_400
          && forall k :: 0 <= k < |q.stages| ==> StageFit(q.stages[k])
      }
    ensures ParseLogic(Some(l)) == Some(l) || ParseLogic(Some(l)) == None
  {
    var cs := Conditions(l);
    forall k | 0 <= k < |cs| ensures Fit(cs[k]) <==> Accepted(cs[k]) && JsonCondition(cs[k]) {
      AcceptedExactly(cs[k]);
    }
    hide Accepted, WellShaped, JsonCondition, Height, Leaves, Fit;
    match l {
      case SingleRule(c) => assert cs[0] == c;
      case ThresholdRule(t) => assert cs[0] == t.condition;
      case SequenceRule(q) =>
        forall k | 0 <= k < |q.stages|
          ensures StageFit(q.stages[k]) <==> StageOk(q.stages[k]) && JsonCondition(cs[k])
        {
          assert cs[k] == q.stages[k].condition;
        }
    }
  }

  ghost predicate HasTimeOp(c: Condition) {
    match c
    case Leaf(op, _, _) => IsTimeOp(op)
    case Group(_, cs) => exists i | 0 <= i < |cs| :: HasTimeOp(cs[i])
  }

  /** Validation wants a datetime constant behind a time operator; JSON cannot hold one. */
  lemma {:induction false} JsonTimeOperatorsAreRefused(c: Condition)
    requires JsonCondition(c) && HasTimeOp(c)
    ensures !Accepted(c)
  {
    if c.Group? {
      var i :| 0 <= i < |c.children| && HasTimeOp(c.children[i]);
      JsonTimeOperatorsAreRefused(c.children[i]);
    }
  }

  lemma ConditionsAccepted(l: DetectionLogic)
    requires LogicOk(l)
    ensures forall k :: 0 <= k < |Conditions(l)| ==> Accepted(Conditions(l)[k])
  {
    if l.SequenceRule? {
      forall k | 0 <= k < |l.sequence.stages| ensures Accepted(l.sequence.stages[k].condition) {
        assert StageOk(l.sequence.stages[k]);
      }
    }
  }

  /** So no stored rule with a time operator ever gets past `parse_logic`. */
  lemma StoredTimeRulesAreRefused(l: DetectionLogic)
    requires JsonLogic(l) && exists k :: 0 <= k < |Conditions(l)| && HasTimeOp(Conditions(l)[k])
    ensures ParseLogic(Some(l)).None?
  {
    var k :| 0 <= k < |Conditions(l)| && HasTimeOp(Conditions(l)[k]);
    JsonTimeOperatorsAreRefused(Conditions(l)[k]);
    hide LogicOk, Accepted, Conditions;
    if LogicOk(l) { ConditionsAccepted(l); }
  }
}
