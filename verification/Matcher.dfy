/** Single-event evaluation of condition trees (backend/detection/matcher.py). */
module Matcher {
  import opened Basics
  import opened Dsl

  /** `ip_address(actual) in ip_network(network)`, false where Python raises ValueError. */
  type Cidr = (Value, string) -> bool

  datatype Detail =
    | LeafDetail(op: LeafOp, field: Field, expected: Operand, actual: Option<Value>)
    | GroupDetail(bop: BoolOp)

  /** `MatchExplanation`. `raised` marks an evaluation that Python abandons with the
      AttributeError `_utc` raises on a value that is not a datetime. */
  datatype Explanation = Explanation(
    matched: bool, missing: bool, raised: bool, detail: Detail, children: seq<Explanation>)

  predicate SameTyped(actual: Value, lit: Literal) {
    match (actual, lit)
    case (Str(a), LStr(b)) => a == b
    case (Int(a), LInt(b)) => a == b
    case (Time(a), LTime(b)) => a == b
    case _ => false
  }

  predicate SameType(actual: Value, lit: Literal) {
    (actual.Str? && lit.LStr?) || (actual.Int? && lit.LInt?) || (actual.Time? && lit.LTime?)
  }

  predicate OccursAt(needle: string, hay: string, i: int) {
    0 <= i <= |hay| - |needle| && hay[i..i + |needle|] == needle
  }

  predicate Occurs(needle: string, hay: string) {
    exists i | 0 <= i <= |hay| :: OccursAt(needle, hay, i)
  }

  predicate HasPrefix(s: string, p: string) { |p| <= |s| && s[..|p|] == p }

  predicate HasSuffix(s: string, p: string) { |p| <= |s| && s[|s| - |p|..] == p }

  function Numeric(lit: Literal): real {
    match lit
    case LInt(n) => n as real
    case LReal(r) => r
    case LBool(b) => if b then 1.0 else 0.0
    case _ => 0.0
  }

  predicate Compare(op: LeafOp, a: real, b: real) {
    match op
    case Gt => a > b
    case Gte => a >= b
    case Lt => a < b
    case Lte => a <= b
    case _ => false
  }

  predicate CompareTimes(op: LeafOp, a: int, b: int) {
    match op
    case Before => a < b
    case After => a > b
    case OnOrBefore => a <= b
    case OnOrAfter => a >= b
    case _ => false
  }

  predicate NumberHolds(op: LeafOp, actual: Value, expected: Operand) {
    actual.Int? && expected.One? && Compare(op, actual.n as real, Numeric(expected.v))
  }

  predicate TimeHolds(op: LeafOp, actual: Value, expected: Operand) {
    actual.Time? && expected.One? && expected.v.LTime? && CompareTimes(op, actual.t, expected.v.t)
  }

  /** The leaf operators on a field that is present. */
  predicate LeafHolds(cidr: Cidr, op: LeafOp, actual: Value, expected: Operand) {
    match op
    case Equals => expected.One? && SameTyped(actual, expected.v)
    case NotEquals => expected.One? && SameType(actual, expected.v) && !SameTyped(actual, expected.v)
    case Contains => actual.Str? && expected.One? && expected.v.LStr? && Occurs(expected.v.s, actual.s)
    case NotContains => actual.Str? && expected.One? && expected.v.LStr? && !Occurs(expected.v.s, actual.s)
    case StartsWith => actual.Str? && expected.One? && expected.v.LStr? && HasPrefix(actual.s, expected.v.s)
    case EndsWith => actual.Str? && expected.One? && expected.v.LStr? && HasSuffix(actual.s, expected.v.s)
    case In => expected.Many? && exists i | 0 <= i < |expected.vs| :: SameTyped(actual, expected.vs[i])
    case NotIn => expected.Many? && !exists i | 0 <= i < |expected.vs| :: SameTyped(actual, expected.vs[i])
    case CidrMatch => expected.One? && expected.v.LStr? && cidr(actual, expected.v.s)
    case Exists => true
    case NotExists => false
    case _ => if IsNumericOp(op) then NumberHolds(op, actual, expected) else TimeHolds(op, actual, expected)
  }

  function EvalLeaf(cidr: Cidr, e: Event, op: LeafOp, field: Field, expected: Operand): Explanation {
    var actual := e.Get(field);
    var missing := actual.None?;
    var matched :=
      if op == Exists then !missing
      else if op == NotExists then missing
      else !missing && LeafHolds(cidr, op, actual.value, expected);
    Explanation(matched, missing, !missing && IsTimeOp(op) && !actual.value.Time?,
                LeafDetail(op, field, expected, actual), [])
  }

  function MatchEvent(cidr: Cidr, e: Event, c: Condition): Explanation {
    match c
    case Leaf(op, field, expected) => EvalLeaf(cidr, e, op, field, expected)
    case Group(bop, cs) =>
      var kids := seq(|cs|, i requires 0 <= i < |cs| => MatchEvent(cidr, e, cs[i]));
      var matched :=
        match bop
        case And => forall i | 0 <= i < |kids| :: kids[i].matched
        case Or => exists i | 0 <= i < |kids| :: kids[i].matched
        case Not => kids != [] && !kids[0].matched && !kids[0].missing;
      Explanation(matched, exists i | 0 <= i < |kids| :: kids[i].missing,
                  exists i | 0 <= i < |kids| :: kids[i].raised, GroupDetail(bop), kids)
  }

  predicate Matches(cidr: Cidr, e: Event, c: Condition) { MatchEvent(cidr, e, c).matched }

  /** The matcher as the correlation evaluators use it. */
  type Hit = (Event, Condition) -> bool

  /** How the correlation evaluators read a field for grouping and correlating (`_field`). */
  type Access = (Event, Field) -> Option<Value>

  /** What an evaluator sees of its events: which conditions hold, and which keys they have. */
  datatype View = View(hit: Hit, get: Access)

  function MatcherOf(cidr: Cidr): Hit { (e: Event, c: Condition) => Matches(cidr, e, c) }

  /** The pairs on which evaluation raises. */
  function RaiserOf(cidr: Cidr): Hit { (e: Event, c: Condition) => MatchEvent(cidr, e, c).raised }

  /** Events given as mappings: every field can be read. */
  function MappingGet(): Access { (e: Event, f: Field) => e.Get(f) }

  /** The attributes that the accessors of `_field` know. */
  predicate Readable(f: Field) { f in {EventId, Timestamp, SourceIp, Username, Hostname} }

  /** Events given as database rows: the other fifteen fields read as NULL. */
  function RowGet(): Access { (e: Event, f: Field) => if Readable(f) then e.Get(f) else None }

  function ViewOf(cidr: Cidr, get: Access): View { View(MatcherOf(cidr), get) }

  // ---- What the operators say ----------------------------------------------

  /** The constant that writes a value. */
  function Written(v: Value): Literal {
    match v
    case Str(s) => LStr(s)
    case Int(n) => LInt(n)
    case Time(t) => LTime(t)
  }

  /** `exists` and `not_exists` ask for the field; no other operator matches without it. The
      explanation repeats the leaf, with what was found. */
  lemma PresenceLaws(cidr: Cidr, e: Event, op: LeafOp, f: Field, expected: Operand)
    ensures var x := MatchEvent(cidr, e, Leaf(op, f, expected));
      x.detail == LeafDetail(op, f, expected, e.Get(f)) && x.children == [] && (x.missing <==> e.Get(f).None?)
    ensures Matches(cidr, e, Leaf(Exists, f, expected)) <==> e.Get(f).Some?
    ensures Matches(cidr, e, Leaf(NotExists, f, expected)) <==> e.Get(f).None?
    ensures e.Get(f).None? && op != NotExists ==> !Matches(cidr, e, Leaf(op, f, expected))
  { }

  lemma LeafMatches(cidr: Cidr, e: Event, op: LeafOp, f: Field, v: Value, expected: Operand)
    requires e.Get(f) == Some(v) && op != Exists && op != NotExists
    ensures Matches(cidr, e, Leaf(op, f, expected)) <==> LeafHolds(cidr, op, v, expected)
  { }

  /** Equality is that of type and value: a value differs only from another of its own type,
      but it is in no list that does not write it. */
  lemma EqualityLaws(cidr: Cidr, e: Event, f: Field, v: Value, lit: Literal, vs: seq<Literal>)
    requires e.Get(f) == Some(v)
    ensures Matches(cidr, e, Leaf(Equals, f, One(lit))) <==> lit == Written(v)
    ensures Matches(cidr, e, Leaf(NotEquals, f, One(lit))) <==>
      || (v.Str? && lit.LStr? && v.s != lit.s)
      || (v.Int? && lit.LInt? && v.n != lit.n)
      || (v.Time? && lit.LTime? && v.t != lit.t)
    ensures Matches(cidr, e, Leaf(In, f, Many(vs))) <==> Written(v) in vs
    ensures Matches(cidr, e, Leaf(NotIn, f, Many(vs))) <==> Written(v) !in vs
  {
    LeafMatches(cidr, e, Equals, f, v, One(lit));
    LeafMatches(cidr, e, NotEquals, f, v, One(lit));
    LeafMatches(cidr, e, In, f, v, Many(vs));
    LeafMatches(cidr, e, NotIn, f, v, Many(vs));
    hide Matches;
    assert forall i :: 0 <= i < |vs| ==> (SameTyped(v, vs[i]) <==> vs[i] == Written(v));
  }

  lemma OccursIs(b: string, a: string)
    ensures Occurs(b, a) <==> exists p, q :: a == p + b + q
  {
    if i :| 0 <= i <= |a| && OccursAt(b, a, i) { assert a == a[..i] + b + a[i + |b|..]; }
    if p, q :| a == p + b + q {
      assert a[|p|..|p| + |b|] == b;
      assert OccursAt(b, a, |p|);
    }
  }

  lemma EndsAre(b: string, a: string)
    ensures HasPrefix(a, b) <==> exists q :: a == b + q
    ensures HasSuffix(a, b) <==> exists p :: a == p + b
  {
    if HasPrefix(a, b) { assert a == b + a[|b|..]; }
    if HasSuffix(a, b) { assert a == a[..|a| - |b|] + b; }
    if q :| a == b + q { assert a[..|b|] == b; }
    if p :| a == p + b { assert a[|a| - |b|..] == b; }
  }

  /** The text operators, on a present text `a` and a constant `b`. */
  lemma TextLaws(cidr: Cidr, e: Event, f: Field, a: string, b: string)
    requires e.Get(f) == Some(Str(a))
    ensures Matches(cidr, e, Leaf(Contains, f, One(LStr(b)))) <==> exists p, q :: a == p + b + q
    ensures Matches(cidr, e, Leaf(NotContains, f, One(LStr(b)))) <==> !exists p, q :: a == p + b + q
    ensures Matches(cidr, e, Leaf(StartsWith, f, One(LStr(b)))) <==> exists q :: a == b + q
    ensures Matches(cidr, e, Leaf(EndsWith, f, One(LStr(b)))) <==> exists p :: a == p + b
  {
    hide Occurs, HasPrefix, HasSuffix;
    OccursIs(b, a);
    EndsAre(b, a);
    LeafMatches(cidr, e, Contains, f, Str(a), One(LStr(b)));
    LeafMatches(cidr, e, NotContains, f, Str(a), One(LStr(b)));
    LeafMatches(cidr, e, StartsWith, f, Str(a), One(LStr(b)));
    LeafMatches(cidr, e, EndsWith, f, Str(a), One(LStr(b)));
    hide Matches;
  }

  /** The number operators, on a present number and a constant, where `true` counts as one. */
  lemma NumberLaws(cidr: Cidr, e: Event, f: Field, n: int, lit: Literal)
    requires e.Get(f) == Some(Int(n)) && (lit.LInt? || lit.LReal? || lit.LBool?)
    ensures var x := match lit { case LInt(m) => m as real case LReal(r) => r case LBool(true) => 1.0 case _ => 0.0 };
      && (Matches(cidr, e, Leaf(Gt, f, One(lit))) <==> n as real > x)
      && (Matches(cidr, e, Leaf(Gte, f, One(lit))) <==> n as real >= x)
      && (Matches(cidr, e, Leaf(Lt, f, One(lit))) <==> (n as real) < x)
      && (Matches(cidr, e, Leaf(Lte, f, One(lit))) <==> n as real <= x)
  {
    LeafMatches(cidr, e, Gt, f, Int(n), One(lit));
    LeafMatches(cidr, e, Gte, f, Int(n), One(lit));
    LeafMatches(cidr, e, Lt, f, Int(n), One(lit));
    LeafMatches(cidr, e, Lte, f, Int(n), One(lit));
    hide Matches;
  }

  /** The time operators, on a present time and a constant. */
  lemma TimeLaws(cidr: Cidr, e: Event, f: Field, t: int, u: int)
    requires e.Get(f) == Some(Time(t))
    ensures Matches(cidr, e, Leaf(Before, f, One(LTime(u)))) <==> t < u
    ensures Matches(cidr, e, Leaf(After, f, One(LTime(u)))) <==> t > u
    ensures Matches(cidr, e, Leaf(OnOrBefore, f, One(LTime(u)))) <==> t <= u
    ensures Matches(cidr, e, Leaf(OnOrAfter, f, One(LTime(u)))) <==> t >= u
  {
    LeafMatches(cidr, e, Before, f, Time(t), One(LTime(u)));
    LeafMatches(cidr, e, After, f, Time(t), One(LTime(u)));
    LeafMatches(cidr, e, OnOrBefore, f, Time(t), One(LTime(u)));
    LeafMatches(cidr, e, OnOrAfter, f, Time(t), One(LTime(u)));
    hide Matches;
  }

  /** A value of another type satisfies no text, number or time operator, not even the
      negative one; networks are the address library's matter. */
  lemma TypeLaws(cidr: Cidr, e: Event, op: LeafOp, f: Field, v: Value, expected: Operand, network: string)
    requires e.Get(f) == Some(v)
    ensures op in {Contains, NotContains, StartsWith, EndsWith} && !v.Str? ==> !Matches(cidr, e, Leaf(op, f, expected))
    ensures op in {Gt, Gte, Lt, Lte} && !v.Int? ==> !Matches(cidr, e, Leaf(op, f, expected))
    ensures op in {Before, After, OnOrBefore, OnOrAfter} && !v.Time? ==> !Matches(cidr, e, Leaf(op, f, expected))
    ensures Matches(cidr, e, Leaf(CidrMatch, f, One(LStr(network)))) <==> cidr(v, network)
  {
    hide Occurs, HasPrefix, HasSuffix, SameTyped, Compare, CompareTimes, MatchEvent;
    LeafMatches(cidr, e, CidrMatch, f, v, One(LStr(network)));
    if op != Exists && op != NotExists { LeafMatches(cidr, e, op, f, v, expected); }
    hide Matches;
  }

  // ---- Cost ----------------------------------------------------------------

  function Visits(x: Explanation): nat decreases x, 1 {
    1 + SumVisits(x.children)
  }

  function SumVisits(xs: seq<Explanation>): nat decreases xs, 0 {
    if xs == [] then 0 else Visits(xs[0]) + SumVisits(xs[1..])
  }

  lemma {:induction false} VisitsAreNodes(cidr: Cidr, e: Event, c: Condition)
    ensures Visits(MatchEvent(cidr, e, c)) == Nodes(c)
    decreases c, 1
  {
    if c.Group? { SumVisitsAreNodes(cidr, e, c.children, MatchEvent(cidr, e, c).children); }
  }

  lemma {:induction false} SumVisitsAreNodes(cidr: Cidr, e: Event, cs: seq<Condition>, xs: seq<Explanation>)
    requires |xs| == |cs| && forall i :: 0 <= i < |cs| ==> xs[i] == MatchEvent(cidr, e, cs[i])
    ensures SumVisits(xs) == SumNodes(cs)
    decreases cs, 0
  {
    if cs != [] {
      VisitsAreNodes(cidr, e, cs[0]);
      SumVisitsAreNodes(cidr, e, cs[1..], xs[1..]);
    }
  }

  /** Evaluating an accepted rule on one event builds at most 800 explanation nodes. */
  lemma {:induction false} MatchCostBound(cidr: Cidr, e: Event, c: Condition)
    requires Accepted(c)
    ensures Visits(MatchEvent(cidr, e, c)) <= 800
  {
    VisitsAreNodes(cidr, e, c);
    AcceptedNodesBound(c);
  }

  // ---- What a tree mentions ------------------------------------------------

  ghost predicate Mentions(c: Condition, f: Field) {
    match c
    case Leaf(_, g, _) => g == f
    case Group(_, cs) => exists i | 0 <= i < |cs| :: Mentions(cs[i], f)
  }

  /** The `missing` flag of the root says exactly that a mentioned field is NULL. */
  lemma {:induction false} MissingExactly(cidr: Cidr, e: Event, c: Condition)
    ensures MatchEvent(cidr, e, c).missing <==> exists f :: Mentions(c, f) && e.Get(f).None?
  {
    match c
    case Leaf(_, f, _) => assert Mentions(c, f);
    case Group(_, cs) =>
      forall i | 0 <= i < |cs|
        ensures MatchEvent(cidr, e, cs[i]).missing <==> exists f :: Mentions(cs[i], f) && e.Get(f).None?
      {
        MissingExactly(cidr, e, cs[i]);
      }
      var x := MatchEvent(cidr, e, c);
      assert forall i :: 0 <= i < |cs| ==> x.children[i] == MatchEvent(cidr, e, cs[i]);
      if f :| Mentions(c, f) && e.Get(f).None? {
        var i :| 0 <= i < |cs| && Mentions(cs[i], f);
        assert x.children[i].missing;
      }
      if x.missing {
        var i :| 0 <= i < |cs| && x.children[i].missing;
        var f :| Mentions(cs[i], f) && e.Get(f).None?;
        assert Mentions(c, f);
      }
  }

  /** The connectives, on what the members match: `not` also wants every field that its
      member mentions. The explanation lists the members' in order. */
  lemma {:induction false} ConnectivesExactly(cidr: Cidr, e: Event, cs: seq<Condition>)
    ensures Matches(cidr, e, Group(And, cs)) <==> forall i :: 0 <= i < |cs| ==> Matches(cidr, e, cs[i])
    ensures Matches(cidr, e, Group(Or, cs)) <==> exists i :: 0 <= i < |cs| && Matches(cidr, e, cs[i])
    ensures cs != [] ==>
      (Matches(cidr, e, Group(Not, cs)) <==>
         !Matches(cidr, e, cs[0]) && forall f :: Mentions(cs[0], f) ==> e.Get(f).Some?)
    ensures forall bop :: var x := MatchEvent(cidr, e, Group(bop, cs));
      x.detail == GroupDetail(bop) && |x.children| == |cs|
      && forall i :: 0 <= i < |cs| ==> x.children[i] == MatchEvent(cidr, e, cs[i])
  {
    if cs != [] { MissingExactly(cidr, e, cs[0]); }
    forall bop ensures var x := MatchEvent(cidr, e, Group(bop, cs));
      x.detail == GroupDetail(bop) && |x.children| == |cs|
      && forall i :: 0 <= i < |cs| ==> x.children[i] == MatchEvent(cidr, e, cs[i])
    { }
    var x, y := MatchEvent(cidr, e, Group(And, cs)), MatchEvent(cidr, e, Group(Or, cs));
    assert forall i :: 0 <= i < |cs| ==>
      x.children[i].matched == Matches(cidr, e, cs[i]) == y.children[i].matched;
  }

  /** A leaf of the tree on which Python raises: a time operator over a present
      value that is not a datetime. */
  ghost predicate HasTimeMisuse(e: Event, c: Condition) {
    match c
    case Leaf(op, f, _) => IsTimeOp(op) && e.Get(f).Some? && !e.Get(f).value.Time?
    case Group(_, cs) => exists i | 0 <= i < |cs| :: HasTimeMisuse(e, cs[i])
  }

  /** Children are all evaluated before any is looked at, so one bad leaf anywhere
      abandons the evaluation, whatever the other leaves say. */
  lemma {:induction false} RaisedExactly(cidr: Cidr, e: Event, c: Condition)
    ensures MatchEvent(cidr, e, c).raised <==> HasTimeMisuse(e, c)
  {
    if c.Group? {
      var x := MatchEvent(cidr, e, c);
      forall i | 0 <= i < |c.children| ensures x.children[i].raised <==> HasTimeMisuse(e, c.children[i]) {
        RaisedExactly(cidr, e, c.children[i]);
      }
    }
  }

  /** `before` on a host name: accepted by validation, and raising on every event that has
      a host name. */
  lemma TimeOperatorOnText(cidr: Cidr, e: Event)
    requires e.Get(Hostname) == Some(Str("web01"))
    ensures var c := Leaf(Before, Hostname, One(LTime(0)));
      Accepted(c) && MatchEvent(cidr, e, c).raised
  { }

  /** Without time operators nothing can be misused. */
  lemma {:induction false} NoTimeOpNoMisuse(e: Event, c: Condition)
    requires HasTimeMisuse(e, c)
    ensures HasTimeOp(c)
  {
    if c.Group? {
      var i :| 0 <= i < |c.children| && HasTimeMisuse(e, c.children[i]);
      NoTimeOpNoMisuse(e, c.children[i]);
    }
  }

  // ---- Datetimes in explanations -------------------------------------------

  /** The explanation shows a datetime, which JSON cannot encode. */
  predicate ShowsTime(x: Explanation) {
    || (x.detail.LeafDetail? &&
          (!JsonOperand(x.detail.expected) || (x.detail.actual.Some? && x.detail.actual.value.Time?)))
    || exists i | 0 <= i < |x.children| :: ShowsTime(x.children[i])
  }

  /** A field that the tree mentions holds a datetime. */
  ghost predicate HoldsTime(e: Event, c: Condition) {
    exists f :: Mentions(c, f) && e.Get(f).Some? && e.Get(f).value.Time?
  }

  /** A stored rule's explanation shows a datetime exactly when a mentioned field holds one. */
  lemma {:induction false} ShowsTimeExactly(cidr: Cidr, e: Event, c: Condition)
    requires JsonCondition(c)
    ensures ShowsTime(MatchEvent(cidr, e, c)) <==> HoldsTime(e, c)
  {
    match c
    case Leaf(_, f, _) => assert Mentions(c, f);
    case Group(_, cs) =>
      var x := MatchEvent(cidr, e, c);
      forall i | 0 <= i < |cs|
        ensures x.children[i] == MatchEvent(cidr, e, cs[i])
        ensures ShowsTime(x.children[i]) <==> HoldsTime(e, cs[i])
      {
        ShowsTimeExactly(cidr, e, cs[i]);
      }
      if f :| Mentions(c, f) && e.Get(f).Some? && e.Get(f).value.Time? {
        var i :| 0 <= i < |cs| && Mentions(cs[i], f);
        assert ShowsTime(x.children[i]);
      }
      if ShowsTime(x) {
        var i :| 0 <= i < |cs| && ShowsTime(x.children[i]);
        var f :| Mentions(cs[i], f) && e.Get(f).Some? && e.Get(f).value.Time?;
        assert Mentions(c, f);
      }
  }

  // ---- Three-valued reading ------------------------------------------------

  datatype Truth = T | F | U

  /** Strong Kleene logic: a comparison on a NULL field is unknown. */
  ghost function Kleene(cidr: Cidr, e: Event, c: Condition): Truth {
    match c
    case Leaf(op, f, expected) =>
      if op == Exists then (if e.Get(f).Some? then T else F)
      else if op == NotExists then (if e.Get(f).None? then T else F)
      else if e.Get(f).None? then U
      else if LeafHolds(cidr, op, e.Get(f).value, expected) then T else F
    case Group(And, cs) =>
      if exists i | 0 <= i < |cs| :: Kleene(cidr, e, cs[i]) == F then F
      else if exists i | 0 <= i < |cs| :: Kleene(cidr, e, cs[i]) == U then U else T
    case Group(Or, cs) =>
      if exists i | 0 <= i < |cs| :: Kleene(cidr, e, cs[i]) == T then T
      else if exists i | 0 <= i < |cs| :: Kleene(cidr, e, cs[i]) == U then U else F
    case Group(Not, cs) =>
      if cs == [] then F
      else match Kleene(cidr, e, cs[0]) case T => F case F => T case U => U
  }

  /** Two-valued reading: `not` simply negates. */
  ghost predicate Classical(cidr: Cidr, e: Event, c: Condition) {
    match c
    case Leaf(op, f, expected) =>
      if op == NotExists then e.Get(f).None?
      else e.Get(f).Some? && (op == Exists || LeafHolds(cidr, op, e.Get(f).value, expected))
    case Group(And, cs) => forall i | 0 <= i < |cs| :: Classical(cidr, e, cs[i])
    case Group(Or, cs) => exists i | 0 <= i < |cs| :: Classical(cidr, e, cs[i])
    case Group(Not, cs) => cs != [] && !Classical(cidr, e, cs[0])
  }

  /** With no mentioned field NULL, matching, the classical reading and Kleene agree. */
  lemma {:induction false} ClassicalWhenPresent(cidr: Cidr, e: Event, c: Condition)
    requires !MatchEvent(cidr, e, c).missing
    ensures Matches(cidr, e, c) == Classical(cidr, e, c)
    ensures Kleene(cidr, e, c) == if Classical(cidr, e, c) then T else F
  {
    if c.Group? {
      var x := MatchEvent(cidr, e, c);
      forall i | 0 <= i < |c.children|
        ensures x.children[i] == MatchEvent(cidr, e, c.children[i])
        ensures Matches(cidr, e, c.children[i]) == Classical(cidr, e, c.children[i])
        ensures Kleene(cidr, e, c.children[i]) == if Classical(cidr, e, c.children[i]) then T else F
      {
        assert x.children[i] == MatchEvent(cidr, e, c.children[i]);
        ClassicalWhenPresent(cidr, e, c.children[i]);
      }
    }
  }

  /** Matching is conservative: it never claims what Kleene logic leaves open. */
  lemma {:induction false} MatchImpliesKleeneTrue(cidr: Cidr, e: Event, c: Condition)
    requires Matches(cidr, e, c)
    ensures Kleene(cidr, e, c) == T
  {
    if c.Group? {
      var x := MatchEvent(cidr, e, c);
      forall i | 0 <= i < |c.children|
        ensures x.children[i] == MatchEvent(cidr, e, c.children[i])
        ensures x.children[i].matched ==> Kleene(cidr, e, c.children[i]) == T
      {
        assert x.children[i] == MatchEvent(cidr, e, c.children[i]);
        if x.children[i].matched { MatchImpliesKleeneTrue(cidr, e, c.children[i]); }
      }
      if c.bop == Not { ClassicalWhenPresent(cidr, e, c.children[0]); }
    }
  }

  ghost predicate NotFree(c: Condition) {
    c.Group? ==> c.bop != Not && forall i | 0 <= i < |c.children| :: NotFree(c.children[i])
  }

  /** Only `not` loses anything: without it a tree matches exactly when Kleene says true. */
  lemma {:induction false} NotFreeIsExact(cidr: Cidr, e: Event, c: Condition)
    requires NotFree(c)
    ensures Matches(cidr, e, c) <==> Kleene(cidr, e, c) == T
  {
    if c.Group? {
      var x := MatchEvent(cidr, e, c);
      forall i | 0 <= i < |c.children|
        ensures x.children[i].matched <==> Kleene(cidr, e, c.children[i]) == T
      {
        assert x.children[i] == MatchEvent(cidr, e, c.children[i]);
        NotFreeIsExact(cidr, e, c.children[i]);
      }
    }
  }

  ghost predicate NotExistsFree(c: Condition) {
    match c
    case Leaf(op, _, _) => op != NotExists
    case Group(_, cs) => forall i | 0 <= i < |cs| :: NotExistsFree(cs[i])
  }

  /** `e2` is `e1` with some NULL columns filled in. */
  ghost predicate FillsIn(e1: Event, e2: Event) {
    forall f :: e1.Get(f).Some? ==> e2.Get(f) == e1.Get(f)
  }

  lemma {:induction false} SameWhenPresent(cidr: Cidr, e1: Event, e2: Event, c: Condition)
    requires FillsIn(e1, e2) && !MatchEvent(cidr, e1, c).missing
    ensures MatchEvent(cidr, e2, c) == MatchEvent(cidr, e1, c)
  {
    if c.Group? {
      var x, y := MatchEvent(cidr, e1, c), MatchEvent(cidr, e2, c);
      forall i | 0 <= i < |c.children| ensures x.children[i] == y.children[i] {
        assert !x.children[i].missing;
        SameWhenPresent(cidr, e1, e2, c.children[i]);
      }
      assert x.children == y.children;
    }
  }

  /** Learning more about an event cannot withdraw a match of a `not_exists`-free tree. */
  lemma {:induction false} MatchSurvivesFillingIn(cidr: Cidr, e1: Event, e2: Event, c: Condition)
    requires FillsIn(e1, e2) && NotExistsFree(c) && Matches(cidr, e1, c)
    ensures Matches(cidr, e2, c)
  {
    if c.Group? {
      var x, y := MatchEvent(cidr, e1, c), MatchEvent(cidr, e2, c);
      if c.bop == Not {
        SameWhenPresent(cidr, e1, e2, c.children[0]);
        assert x.children[0] == y.children[0];
      } else {
        forall i | 0 <= i < |c.children| && x.children[i].matched ensures y.children[i].matched {
          MatchSurvivesFillingIn(cidr, e1, e2, c.children[i]);
        }
      }
    }
  }

  // ---- Rewriting list operators --------------------------------------------

  function AnyEquals(f: Field, vs: seq<Literal>): Condition {
    Group(Or, seq(|vs|, i requires 0 <= i < |vs| => Leaf(Equals, f, One(vs[i]))))
  }

  /** `b` is `a` with any number of its list leaves rewritten: `in` to an `or` of
      `equals`, `not_in` to `not` of `in`. */
  ghost predicate Rewrites(a: Condition, b: Condition) {
    || a == b
    || (a.Leaf? && a.op == In && a.value.Many? && a.value.vs != [] && b == AnyEquals(a.field, a.value.vs))
    || (a.Leaf? && a.op == NotIn && a.value.Many? && b == Group(Not, [Leaf(In, a.field, a.value)]))
    || (a.Group? && b.Group? && a.bop == b.bop && |a.children| == |b.children|
        && forall i | 0 <= i < |a.children| :: Rewrites(a.children[i], b.children[i]))
  }

  lemma {:induction false} AnyEqualsIsIn(cidr: Cidr, e: Event, f: Field, vs: seq<Literal>)
    requires vs != []
    ensures var x, y := MatchEvent(cidr, e, Leaf(In, f, Many(vs))), MatchEvent(cidr, e, AnyEquals(f, vs));
      x.matched == y.matched && x.missing == y.missing && x.raised == y.raised
  {
    var b := AnyEquals(f, vs);
    var y := MatchEvent(cidr, e, b);
    forall i | 0 <= i < |vs| ensures y.children[i] == EvalLeaf(cidr, e, Equals, f, One(vs[i])) {
      assert y.children[i] == MatchEvent(cidr, e, b.children[i]);
    }
    assert y.missing <==> y.children[0].missing;
    if e.Get(f).Some? {
      forall i | 0 <= i < |vs| ensures y.children[i].matched == SameTyped(e.Get(f).value, vs[i]) { }
    }
  }

  lemma {:induction false} NotInIsNotOfIn(cidr: Cidr, e: Event, f: Field, vs: seq<Literal>)
    ensures var x, y := MatchEvent(cidr, e, Leaf(NotIn, f, Many(vs))),
                        MatchEvent(cidr, e, Group(Not, [Leaf(In, f, Many(vs))]));
      x.matched == y.matched && x.missing == y.missing && x.raised == y.raised
  {
    var b := Group(Not, [Leaf(In, f, Many(vs))]);
    var y := MatchEvent(cidr, e, b);
    assert y.children[0] == MatchEvent(cidr, e, b.children[0]);
  }

  /** Rewriting list leaves anywhere in a tree changes nothing the root reports. */
  lemma {:induction false} RewritingKeepsOutcome(cidr: Cidr, e: Event, a: Condition, b: Condition)
    requires Rewrites(a, b)
    ensures var x, y := MatchEvent(cidr, e, a), MatchEvent(cidr, e, b);
      x.matched == y.matched && x.missing == y.missing && x.raised == y.raised
  {
    if a == b {
    } else if a.Leaf? {
      if a.op == In { AnyEqualsIsIn(cidr, e, a.field, a.value.vs); }
      else { NotInIsNotOfIn(cidr, e, a.field, a.value.vs); }
    } else {
      var x, y := MatchEvent(cidr, e, a), MatchEvent(cidr, e, b);
      forall i | 0 <= i < |a.children|
        ensures x.children[i].matched == y.children[i].matched
        ensures x.children[i].missing == y.children[i].missing
        ensures x.children[i].raised == y.children[i].raised
      {
        RewritingKeepsOutcome(cidr, e, a.children[i], b.children[i]);
      }
    }
  }
}
