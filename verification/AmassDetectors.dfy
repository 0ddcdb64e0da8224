/**
  Two detectors of amassed-army references in target filters: the old hand-rolled pair and the
  newer walker that takes the test on a filter node as a parameter.

  A JSON node that is missing, or is not an object, is `Absent` (or an empty quantity); a node
  of a type no walker looks into is `OtherFilter` or `OtherProp`.
 */
module AmassDetectors {

  datatype RefKind =
    | Power | BasePower | Toughness | ObjectManaValue | ObjectColorCount | ObjectNameWordCount
    | ObjectTypelineComponentCount | ManaSymbolsInManaCost | CountersOn | OtherRef

  datatype Quantity =
    | Fixed
    | Ref(kind: RefKind, scope: string)
    | Wrapped(inner: Quantity)              // DivideRounded, Offset, ClampMin, Multiply
    | Several(exprs: seq<Quantity>)         // Sum, Max
    | UpTo(max: Quantity)
    | PowerOf(exponent: Quantity)
    | Difference(left: Quantity, right: Quantity)
    | OtherQuantity

  datatype Filter =
    | Absent
    | Typed(properties: seq<Prop>)
    | Several(filters: seq<Filter>)         // And, Or
    | Not(filter: Filter)
    | TrackedSetFiltered(filter: Filter)
    | ChosenDamageSource(filter: Filter)
    | OtherFilter                           // PlayerMatching among them

  datatype Prop =
    | Measured(value: Quantity)             // Cmc, Counters, PtComparison
    | CanEnchant(target: Filter)
    | Related(filter: Filter)               // DifferentNameFrom, TargetsOnly, Targets
    | DistinctFrom(reference: Filter)
    | SharesQuality(reference: Filter)
    | AnyOf(props: seq<Prop>)
    | NotProp(prop: Prop)
    | OtherProp                             // ControllerMatches among them

  const SCOPE_KINDS: set<RefKind> :=
    {Power, BasePower, Toughness, ObjectManaValue, ObjectColorCount, ObjectNameWordCount,
     ObjectTypelineComponentCount, ManaSymbolsInManaCost, CountersOn}

  const OLD_KINDS: set<RefKind> := SCOPE_KINDS - {BasePower, CountersOn}

  const AMASSED: string := "AmassedArmy"

  // ---------------------------------------------------------------------------------------
  // The walkers
  // ---------------------------------------------------------------------------------------

  predicate ContainsScope(q: Quantity, scope: string, kinds: set<RefKind>) {
    match q
    case Fixed => false
    case Ref(kind, s) => kind in kinds && s == scope
    case Wrapped(inner) => ContainsScope(inner, scope, kinds)
    case Several(exprs) => exists i | 0 <= i < |exprs| :: ContainsScope(exprs[i], scope, kinds)
    case UpTo(max) => ContainsScope(max, scope, kinds)
    case PowerOf(exponent) => ContainsScope(exponent, scope, kinds)
    case Difference(left, right) => ContainsScope(left, scope, kinds) || ContainsScope(right, scope, kinds)
    case OtherQuantity => false
  }

  /** The parameterized walker over filters. */
  predicate FilterContains(f: Filter, leaf: Filter -> bool) {
    !f.Absent? &&
    (leaf(f) ||
     match f
     case Absent => false
     case Typed(properties) => exists i | 0 <= i < |properties| :: PropContains(properties[i], leaf)
     case Several(filters) => exists i | 0 <= i < |filters| :: FilterContains(filters[i], leaf)
     case Not(g) => FilterContains(g, leaf)
     case TrackedSetFiltered(g) => FilterContains(g, leaf)
     case ChosenDamageSource(g) => FilterContains(g, leaf)
     case OtherFilter => false)
  }

  predicate PropContains(p: Prop, leaf: Filter -> bool) {
    match p
    case Measured(_) => false
    case CanEnchant(target) => FilterContains(target, leaf)
    case Related(f) => FilterContains(f, leaf)
    case DistinctFrom(reference) => FilterContains(reference, leaf)
    case SharesQuality(reference) => FilterContains(reference, leaf)
    case AnyOf(props) => exists i | 0 <= i < |props| :: PropContains(props[i], leaf)
    case NotProp(q) => PropContains(q, leaf)
    case OtherProp => false
  }

  /** A typed filter with a measured property of its own that refers to the amassed army. */
  predicate MeasuresArmy(f: Filter, kinds: set<RefKind>) {
    f.Typed? &&
    exists i | 0 <= i < |f.properties| ::
      f.properties[i].Measured? && ContainsScope(f.properties[i].value, AMASSED, kinds)
  }

  predicate NewContains(f: Filter) {
    FilterContains(f, (g: Filter) => MeasuresArmy(g, SCOPE_KINDS))
  }

  /** The hand-rolled walker over filters. */
  predicate OldContains(f: Filter) {
    match f
    case Absent => false
    case Typed(properties) =>
      MeasuresArmy(f, OLD_KINDS) ||
      exists i | 0 <= i < |properties| :: !properties[i].Measured? && OldContainsProp(properties[i])
    case Several(filters) => exists i | 0 <= i < |filters| :: OldContains(filters[i])
    case Not(g) => OldContains(g)
    case TrackedSetFiltered(g) => OldContains(g)
    case ChosenDamageSource(_) => false
    case OtherFilter => false
  }

  predicate OldContainsProp(p: Prop) {
    match p
    case Measured(value) => ContainsScope(value, AMASSED, OLD_KINDS)
    case CanEnchant(target) => OldContains(target)
    case Related(f) => OldContains(f)
    case DistinctFrom(_) => false
    case SharesQuality(reference) => OldContains(reference)
    case AnyOf(props) => exists i | 0 <= i < |props| :: OldContainsProp(props[i])
    case NotProp(q) => OldContainsProp(q)
    case OtherProp => false
  }

  // ---------------------------------------------------------------------------------------
  // Old implies new, away from nested measures
  // ---------------------------------------------------------------------------------------

  /** On a way the old walker takes, a measured property stands under AnyOf or Not. */
  predicate Nests(f: Filter) {
    match f
    case Absent => false
    case Typed(properties) => exists i | 0 <= i < |properties| :: NestsProp(properties[i], false)
    case Several(filters) => exists i | 0 <= i < |filters| :: Nests(filters[i])
    case Not(g) => Nests(g)
    case TrackedSetFiltered(g) => Nests(g)
    case ChosenDamageSource(_) => false
    case OtherFilter => false
  }

  predicate NestsProp(p: Prop, inside: bool) {
    match p
    case Measured(_) => inside
    case CanEnchant(target) => Nests(target)
    case Related(f) => Nests(f)
    case DistinctFrom(_) => false
    case SharesQuality(reference) => Nests(reference)
    case AnyOf(props) => exists i | 0 <= i < |props| :: NestsProp(props[i], true)
    case NotProp(q) => NestsProp(q, true)
    case OtherProp => false
  }

  lemma {:induction false} MoreKindsContainMore(q: Quantity, scope: string, few: set<RefKind>, many: set<RefKind>)
    requires few <= many && ContainsScope(q, scope, few)
    ensures ContainsScope(q, scope, many)
  {
    match q
    case Wrapped(inner) => MoreKindsContainMore(inner, scope, few, many);
    case Several(exprs) =>
      var i :| 0 <= i < |exprs| && ContainsScope(exprs[i], scope, few);
      MoreKindsContainMore(exprs[i], scope, few, many);
    case UpTo(max) => MoreKindsContainMore(max, scope, few, many);
    case PowerOf(exponent) => MoreKindsContainMore(exponent, scope, few, many);
    case Difference(left, right) =>
      if ContainsScope(left, scope, few) {
        MoreKindsContainMore(left, scope, few, many);
      } else {
        MoreKindsContainMore(right, scope, few, many);
      }
    case _ =>
  }

  /** Whatever the old detector accepts, the new one accepts, when no measure is nested. */
  lemma {:induction false} OldImpliesNew(f: Filter)
    requires !Nests(f) && OldContains(f)
    ensures NewContains(f)
  {
    match f
    case Typed(properties) =>
      if MeasuresArmy(f, OLD_KINDS) {
        var i :| 0 <= i < |properties| && properties[i].Measured?
                 && ContainsScope(properties[i].value, AMASSED, OLD_KINDS);
        MoreKindsContainMore(properties[i].value, AMASSED, OLD_KINDS, SCOPE_KINDS);
      } else {
        var i :| 0 <= i < |properties| && !properties[i].Measured? && OldContainsProp(properties[i]);
        OldPropImpliesNew(properties[i], false);
      }
    case Several(filters) =>
      var i :| 0 <= i < |filters| && OldContains(filters[i]);
      OldImpliesNew(filters[i]);
    case Not(g) => OldImpliesNew(g);
    case TrackedSetFiltered(g) => OldImpliesNew(g);
    case _ =>
  }

  lemma {:induction false} OldPropImpliesNew(p: Prop, inside: bool)
    requires !NestsProp(p, inside) && OldContainsProp(p) && (p.Measured? ==> inside)
    ensures PropContains(p, (g: Filter) => MeasuresArmy(g, SCOPE_KINDS))
  {
    match p
    case CanEnchant(target) => OldImpliesNew(target);
    case Related(f) => OldImpliesNew(f);
    case SharesQuality(reference) => OldImpliesNew(reference);
    case AnyOf(props) =>
      var i :| 0 <= i < |props| && OldContainsProp(props[i]);
      OldPropImpliesNew(props[i], true);
    case NotProp(q) => OldPropImpliesNew(q, true);
    case _ =>
  }

  // ---------------------------------------------------------------------------------------
  // And only there: every shape that nests a measure has a filling that only the old accepts
  // ---------------------------------------------------------------------------------------

  /** The filter with all its measures blanked out. */
  function Shape(f: Filter): Filter {
    match f
    case Typed(properties) =>
      Typed(seq(|properties|, i requires 0 <= i < |properties| => ShapeProp(properties[i])))
    case Several(filters) =>
      Filter.Several(seq(|filters|, i requires 0 <= i < |filters| => Shape(filters[i])))
    case Not(g) => Not(Shape(g))
    case TrackedSetFiltered(g) => TrackedSetFiltered(Shape(g))
    case ChosenDamageSource(g) => ChosenDamageSource(Shape(g))
    case _ => f
  }

  function ShapeProp(p: Prop): Prop {
    match p
    case Measured(_) => Measured(Fixed)
    case CanEnchant(target) => CanEnchant(Shape(target))
    case Related(f) => Related(Shape(f))
    case DistinctFrom(reference) => DistinctFrom(Shape(reference))
    case SharesQuality(reference) => SharesQuality(Shape(reference))
    case AnyOf(props) => AnyOf(seq(|props|, i requires 0 <= i < |props| => ShapeProp(props[i])))
    case NotProp(q) => NotProp(ShapeProp(q))
    case OtherProp => p
  }

  /** The filter with an army reference in every nested measure and in no other. */
  function Filled(f: Filter): Filter {
    match f
    case Typed(properties) =>
      Typed(seq(|properties|, i requires 0 <= i < |properties| => FilledProp(properties[i], false)))
    case Several(filters) =>
      Filter.Several(seq(|filters|, i requires 0 <= i < |filters| => Filled(filters[i])))
    case Not(g) => Not(Filled(g))
    case TrackedSetFiltered(g) => TrackedSetFiltered(Filled(g))
    case ChosenDamageSource(g) => ChosenDamageSource(Filled(g))
    case _ => f
  }

  function FilledProp(p: Prop, inside: bool): Prop {
    match p
    case Measured(_) => Measured(if inside then Ref(Power, AMASSED) else Fixed)
    case CanEnchant(target) => CanEnchant(Filled(target))
    case Related(f) => Related(Filled(f))
    case DistinctFrom(reference) => DistinctFrom(Filled(reference))
    case SharesQuality(reference) => SharesQuality(Filled(reference))
    case AnyOf(props) => AnyOf(seq(|props|, i requires 0 <= i < |props| => FilledProp(props[i], true)))
    case NotProp(q) => NotProp(FilledProp(q, true))
    case OtherProp => p
  }

  lemma {:induction false} FilledHasShape(f: Filter)
    ensures Shape(Filled(f)) == Shape(f)
  {
    match f
    case Typed(properties) =>
      forall i | 0 <= i < |properties|
        ensures ShapeProp(FilledProp(properties[i], false)) == ShapeProp(properties[i])
      {
        FilledPropHasShape(properties[i], false);
      }
      assert Shape(Filled(f)).properties == Shape(f).properties;
    case Several(filters) =>
      forall i | 0 <= i < |filters|
        ensures Shape(Filled(filters[i])) == Shape(filters[i])
      {
        FilledHasShape(filters[i]);
      }
      assert Shape(Filled(f)).filters == Shape(f).filters;
    case Not(g) => FilledHasShape(g);
    case TrackedSetFiltered(g) => FilledHasShape(g);
    case ChosenDamageSource(g) => FilledHasShape(g);
    case _ =>
  }

  lemma {:induction false} FilledPropHasShape(p: Prop, inside: bool)
    ensures ShapeProp(FilledProp(p, inside)) == ShapeProp(p)
  {
    match p
    case CanEnchant(target) => FilledHasShape(target);
    case Related(f) => FilledHasShape(f);
    case DistinctFrom(reference) => FilledHasShape(reference);
    case SharesQuality(reference) => FilledHasShape(reference);
    case AnyOf(props) =>
      forall i | 0 <= i < |props|
        ensures ShapeProp(FilledProp(props[i], true)) == ShapeProp(props[i])
      {
        FilledPropHasShape(props[i], true);
      }
      assert ShapeProp(FilledProp(p, inside)).props == ShapeProp(p).props;
    case NotProp(q) => FilledPropHasShape(q, true);
    case _ =>
  }

  /** Nesting is a matter of shape. */
  lemma {:induction false} NestingIsShape(f: Filter)
    ensures Nests(Shape(f)) == Nests(f)
  {
    match f
    case Typed(properties) =>
      var shaped := Shape(f).properties;
      forall i | 0 <= i < |properties|
        ensures NestsProp(shaped[i], false) == NestsProp(properties[i], false)
      {
        NestingPropIsShape(properties[i], false);
      }
    case Several(filters) =>
      var shaped := Shape(f).filters;
      forall i | 0 <= i < |filters|
        ensures Nests(shaped[i]) == Nests(filters[i])
      {
        NestingIsShape(filters[i]);
      }
    case Not(g) => NestingIsShape(g);
    case TrackedSetFiltered(g) => NestingIsShape(g);
    case _ =>
  }

  lemma {:induction false} NestingPropIsShape(p: Prop, inside: bool)
    ensures NestsProp(ShapeProp(p), inside) == NestsProp(p, inside)
  {
    match p
    case CanEnchant(target) => NestingIsShape(target);
    case Related(f) => NestingIsShape(f);
    case SharesQuality(reference) => NestingIsShape(reference);
    case AnyOf(props) =>
      var shaped := ShapeProp(p).props;
      forall i | 0 <= i < |props|
        ensures NestsProp(shaped[i], true) == NestsProp(props[i], true)
      {
        NestingPropIsShape(props[i], true);
      }
    case NotProp(q) => NestingPropIsShape(q, true);
    case _ =>
  }

  lemma {:induction false} OldAcceptsFilled(f: Filter)
    requires Nests(f)
    ensures OldContains(Filled(f))
  {
    match f
    case Typed(properties) =>
      var i :| 0 <= i < |properties| && NestsProp(properties[i], false);
      OldAcceptsFilledProp(properties[i], false);
      assert Filled(f).properties[i] == FilledProp(properties[i], false);
    case Several(filters) =>
      var i :| 0 <= i < |filters| && Nests(filters[i]);
      OldAcceptsFilled(filters[i]);
      assert Filled(f).filters[i] == Filled(filters[i]);
    case Not(g) => OldAcceptsFilled(g);
    case TrackedSetFiltered(g) => OldAcceptsFilled(g);
    case _ =>
  }

  lemma {:induction false} OldAcceptsFilledProp(p: Prop, inside: bool)
    requires NestsProp(p, inside)
    ensures OldContainsProp(FilledProp(p, inside))
  {
    match p
    case CanEnchant(target) => OldAcceptsFilled(target);
    case Related(f) => OldAcceptsFilled(f);
    case SharesQuality(reference) => OldAcceptsFilled(reference);
    case AnyOf(props) =>
      var i :| 0 <= i < |props| && NestsProp(props[i], true);
      OldAcceptsFilledProp(props[i], true);
      assert FilledProp(p, inside).props[i] == FilledProp(props[i], true);
    case NotProp(q) => OldAcceptsFilledProp(q, true);
    case _ =>
  }

  lemma {:induction false} NewRejectsFilled(f: Filter)
    ensures !NewContains(Filled(f))
  {
    match f
    case Typed(properties) =>
      var filled := Filled(f).properties;
      forall i | 0 <= i < |properties|
        ensures !PropContains(filled[i], (g: Filter) => MeasuresArmy(g, SCOPE_KINDS))
        ensures filled[i].Measured? ==> filled[i].value == Fixed
      {
        NewRejectsFilledProp(properties[i], false);
      }
    case Several(filters) =>
      var filled := Filled(f).filters;
      forall i | 0 <= i < |filters|
        ensures !NewContains(filled[i])
      {
        NewRejectsFilled(filters[i]);
      }
    case Not(g) => NewRejectsFilled(g);
    case TrackedSetFiltered(g) => NewRejectsFilled(g);
    case ChosenDamageSource(g) => NewRejectsFilled(g);
    case _ =>
  }

  lemma {:induction false} NewRejectsFilledProp(p: Prop, inside: bool)
    ensures !PropContains(FilledProp(p, inside), (g: Filter) => MeasuresArmy(g, SCOPE_KINDS))
  {
    match p
    case CanEnchant(target) => NewRejectsFilled(target);
    case Related(f) => NewRejectsFilled(f);
    case DistinctFrom(reference) => NewRejectsFilled(reference);
    case SharesQuality(reference) => NewRejectsFilled(reference);
    case AnyOf(props) =>
      var filled := FilledProp(p, inside).props;
      forall i | 0 <= i < |props|
        ensures !PropContains(filled[i], (g: Filter) => MeasuresArmy(g, SCOPE_KINDS))
      {
        NewRejectsFilledProp(props[i], true);
      }
    case NotProp(q) => NewRejectsFilledProp(q, true);
    case _ =>
  }

  /**
    Exactly when: the new detector accepts all the old one accepts, over all filters of a shape,
    if and only if the shape nests no measured property under AnyOf or Not.
   */
  lemma OldImpliesNewExactly(f: Filter)
    ensures (forall g :: Shape(g) == Shape(f) && OldContains(g) ==> NewContains(g)) <==> !Nests(f)
  {
    NestingIsShape(f);
    if Nests(f) {
      FilledHasShape(f);
      OldAcceptsFilled(f);
      NewRejectsFilled(f);
    } else {
      forall g | Shape(g) == Shape(f) && OldContains(g)
        ensures NewContains(g)
      {
        NestingIsShape(g);
        OldImpliesNew(g);
      }
    }
  }

  // ---------------------------------------------------------------------------------------
  // What each walker looks for, told by ways through the tree
  // ---------------------------------------------------------------------------------------

  function Operands(q: Quantity): seq<Quantity> {
    match q
    case Wrapped(inner) => [inner]
    case Several(exprs) => exprs
    case UpTo(max) => [max]
    case PowerOf(exponent) => [exponent]
    case Difference(left, right) => [left, right]
    case _ => []
  }

  ghost predicate IsDescent(way: seq<Quantity>) {
    way != [] && forall i :: 0 <= i < |way| - 1 ==> way[i + 1] in Operands(way[i])
  }

  /** A reference of one of the kinds to the scope stands somewhere in the quantity. */
  ghost predicate Refers(way: seq<Quantity>, q: Quantity, scope: string, kinds: set<RefKind>) {
    && IsDescent(way) && way[0] == q
    && way[|way| - 1].Ref? && way[|way| - 1].kind in kinds && way[|way| - 1].scope == scope
  }

  lemma ScopeStep(q: Quantity, scope: string, kinds: set<RefKind>)
    ensures ContainsScope(q, scope, kinds) <==>
            (q.Ref? && q.kind in kinds && q.scope == scope)
            || exists i :: 0 <= i < |Operands(q)| && ContainsScope(Operands(q)[i], scope, kinds)
  {
    match q
    case Wrapped(inner) => assert ContainsScope(Operands(q)[0], scope, kinds) == ContainsScope(q, scope, kinds);
    case Several(exprs) =>
      assert Operands(q) == exprs;
      assert ContainsScope(q, scope, kinds) == exists i :: 0 <= i < |exprs| && ContainsScope(exprs[i], scope, kinds);
    case UpTo(max) => assert ContainsScope(Operands(q)[0], scope, kinds) == ContainsScope(q, scope, kinds);
    case PowerOf(exponent) => assert ContainsScope(Operands(q)[0], scope, kinds) == ContainsScope(q, scope, kinds);
    case Difference(left, right) =>
      assert ContainsScope(q, scope, kinds) ==
             (ContainsScope(Operands(q)[0], scope, kinds) || ContainsScope(Operands(q)[1], scope, kinds));
    case _ =>
  }

  lemma LongerDescent(q: Quantity, way: seq<Quantity>)
    requires IsDescent(way) && way[0] in Operands(q)
    ensures IsDescent([q] + way)
  {
  }

  lemma {:induction false} ScopeHasDescent(q: Quantity, scope: string, kinds: set<RefKind>) returns (way: seq<Quantity>)
    requires ContainsScope(q, scope, kinds)
    ensures Refers(way, q, scope, kinds)
  {
    if q.Ref? {
      way := [q];
    } else {
      var inner: Quantity;
      match q {
        case Wrapped(e) => inner := e;
        case Several(exprs) =>
          var i :| 0 <= i < |exprs| && ContainsScope(exprs[i], scope, kinds);
          inner := exprs[i];
        case UpTo(max) => inner := max;
        case PowerOf(exponent) => inner := exponent;
        case Difference(left, right) => inner := if ContainsScope(left, scope, kinds) then left else right;
      }
      way := ScopeHasDescent(inner, scope, kinds);
      LongerDescent(q, way);
      way := [q] + way;
    }
  }

  lemma {:induction false} DescentHasScope(way: seq<Quantity>, q: Quantity, scope: string, kinds: set<RefKind>)
    requires Refers(way, q, scope, kinds)
    ensures ContainsScope(q, scope, kinds)
    decreases |way|
  {
    if |way| > 1 {
      assert way[1] in Operands(way[0]);
      assert IsDescent(way[1..]);
      DescentHasScope(way[1..], way[1], scope, kinds);
      ScopeStep(q, scope, kinds);
    }
  }

  /** A quantity contains a scope exactly when a reference to it stands anywhere in it. */
  lemma ContainsScopeExactly(q: Quantity, scope: string, kinds: set<RefKind>)
    ensures ContainsScope(q, scope, kinds) <==> exists way :: Refers(way, q, scope, kinds)
  {
    if ContainsScope(q, scope, kinds) {
      var way := ScopeHasDescent(q, scope, kinds);
    }
    if way :| Refers(way, q, scope, kinds) {
      DescentHasScope(way, q, scope, kinds);
    }
  }

  /** A filter or a property of the tree. */
  datatype Node = F(filter: Filter) | P(prop: Prop)

  function Props(props: seq<Prop>): seq<Node> {
    seq(|props|, i requires 0 <= i < |props| => P(props[i]))
  }

  function Filters(filters: seq<Filter>): seq<Node> {
    seq(|filters|, i requires 0 <= i < |filters| => F(filters[i]))
  }

  /** Everything that stands directly in a node. */
  function Children(n: Node): seq<Node> {
    match n
    case F(Typed(properties)) => Props(properties)
    case F(Several(filters)) => Filters(filters)
    case F(Not(f)) => [F(f)]
    case F(TrackedSetFiltered(f)) => [F(f)]
    case F(ChosenDamageSource(f)) => [F(f)]
    case P(CanEnchant(target)) => [F(target)]
    case P(Related(f)) => [F(f)]
    case P(DistinctFrom(reference)) => [F(reference)]
    case P(SharesQuality(reference)) => [F(reference)]
    case P(AnyOf(props)) => Props(props)
    case P(NotProp(q)) => [P(q)]
    case _ => []
  }

  ghost predicate IsWay(way: seq<Node>) {
    way != [] && forall i :: 0 <= i < |way| - 1 ==> way[i + 1] in Children(way[i])
  }

  /** A measured property that refers to the amassed army. */
  predicate Measures(n: Node, kinds: set<RefKind>) {
    n.P? && n.prop.Measured? && ContainsScope(n.prop.value, AMASSED, kinds)
  }

  /** Nodes that the old walker does not look into. */
  predicate OldStops(n: Node) {
    (n.F? && n.filter.ChosenDamageSource?) || (n.P? && n.prop.DistinctFrom?)
  }

  /** A way that the old walker takes, to a property it accepts. */
  ghost predicate OldWay(way: seq<Node>, from: Node) {
    && IsWay(way) && way[0] == from && Measures(way[|way| - 1], OLD_KINDS)
    && forall i :: 0 <= i < |way| ==> !OldStops(way[i])
  }

  /** Any way to a property that the new walker accepts, which stands directly in a filter. */
  ghost predicate NewWay(way: seq<Node>, from: Node) {
    && IsWay(way) && |way| > 1 && way[0] == from
    && Measures(way[|way| - 1], SCOPE_KINDS) && way[|way| - 2].F?
  }

  predicate OldAccepts(n: Node) {
    match n
    case F(f) => OldContains(f)
    case P(p) => OldContainsProp(p)
  }

  predicate NewAccepts(n: Node) {
    match n
    case F(f) => NewContains(f)
    case P(p) => PropContains(p, (g: Filter) => MeasuresArmy(g, SCOPE_KINDS))
  }

  lemma LongerWay(n: Node, way: seq<Node>)
    requires IsWay(way) && way[0] in Children(n)
    ensures IsWay([n] + way)
  {
  }

  /** A node with one child accepts through it alone. */
  lemma OnlyChild(n: Node)
    requires |Children(n)| == 1 && !(n.P? && n.prop.AnyOf?)
    requires n.F? ==> !n.filter.Typed? && !n.filter.Several?
    ensures OldAccepts(n) <==> !OldStops(n) && OldAccepts(Children(n)[0])
    ensures NewAccepts(n) <==> NewAccepts(Children(n)[0])
    ensures n.F? ==> Children(n)[0].F?
  {
  }

  // The old walker

  lemma OldStep(n: Node)
    ensures OldAccepts(n) <==>
            !OldStops(n) && (Measures(n, OLD_KINDS) || exists i :: 0 <= i < |Children(n)| && OldAccepts(Children(n)[i]))
  {
    match n
    case F(Typed(properties)) =>
      if OldAccepts(n) {
        if MeasuresArmy(n.filter, OLD_KINDS) {
          var i :| 0 <= i < |properties| && properties[i].Measured?
                   && ContainsScope(properties[i].value, AMASSED, OLD_KINDS);
          assert OldAccepts(Children(n)[i]);
        } else {
          var i :| 0 <= i < |properties| && !properties[i].Measured? && OldContainsProp(properties[i]);
          assert OldAccepts(Children(n)[i]);
        }
      }
      if i :| 0 <= i < |Children(n)| && OldAccepts(Children(n)[i]) {
        assert Children(n)[i] == P(properties[i]) && OldContainsProp(properties[i]);
      }
    case F(Several(filters)) =>
      assert forall i :: 0 <= i < |filters| ==> Children(n)[i] == F(filters[i]);
      if OldAccepts(n) {
        var i :| 0 <= i < |filters| && OldContains(filters[i]);
        assert OldAccepts(Children(n)[i]);
      }
    case P(AnyOf(props)) =>
      assert forall i :: 0 <= i < |props| ==> Children(n)[i] == P(props[i]);
      if OldAccepts(n) {
        var i :| 0 <= i < |props| && OldContainsProp(props[i]);
        assert OldAccepts(Children(n)[i]);
      }
    case F(Not(_)) => OnlyChild(n);
    case F(TrackedSetFiltered(_)) => OnlyChild(n);
    case F(ChosenDamageSource(_)) => OnlyChild(n);
    case P(CanEnchant(_)) => OnlyChild(n);
    case P(Related(_)) => OnlyChild(n);
    case P(DistinctFrom(_)) => OnlyChild(n);
    case P(SharesQuality(_)) => OnlyChild(n);
    case P(NotProp(_)) => OnlyChild(n);
    case _ =>
  }

  /** Height of the tree under a node, by which its children are smaller. */
  function Height(f: Filter): nat {
    match f
    case Typed(properties) => 1 + HeightOfProps(properties)
    case Several(filters) => 1 + HeightOfFilters(filters)
    case Not(g) => 1 + Height(g)
    case TrackedSetFiltered(g) => 1 + Height(g)
    case ChosenDamageSource(g) => 1 + Height(g)
    case _ => 0
  }

  function HeightOfProp(p: Prop): nat {
    match p
    case CanEnchant(target) => 1 + Height(target)
    case Related(f) => 1 + Height(f)
    case DistinctFrom(reference) => 1 + Height(reference)
    case SharesQuality(reference) => 1 + Height(reference)
    case AnyOf(props) => 1 + HeightOfProps(props)
    case NotProp(q) => 1 + HeightOfProp(q)
    case _ => 0
  }

  function HeightOfProps(props: seq<Prop>): nat {
    if props == [] then 0 else HeightOfProp(props[0]) + HeightOfProps(props[1..])
  }

  function HeightOfFilters(filters: seq<Filter>): nat {
    if filters == [] then 0 else Height(filters[0]) + HeightOfFilters(filters[1..])
  }

  function HeightOfNode(n: Node): nat {
    match n
    case F(f) => Height(f)
    case P(p) => HeightOfProp(p)
  }

  lemma {:induction false} PropIsLower(props: seq<Prop>, i: nat)
    requires i < |props|
    ensures HeightOfProp(props[i]) <= HeightOfProps(props)
  {
    if i > 0 {
      PropIsLower(props[1..], i - 1);
    }
  }

  lemma {:induction false} FilterIsLower(filters: seq<Filter>, i: nat)
    requires i < |filters|
    ensures Height(filters[i]) <= HeightOfFilters(filters)
  {
    if i > 0 {
      FilterIsLower(filters[1..], i - 1);
    }
  }

  lemma ChildIsLower(n: Node, i: nat)
    requires i < |Children(n)|
    ensures HeightOfNode(Children(n)[i]) < HeightOfNode(n)
  {
    match n
    case F(Typed(properties)) => PropIsLower(properties, i);
    case F(Several(filters)) => FilterIsLower(filters, i);
    case P(AnyOf(props)) => PropIsLower(props, i);
    case _ =>
  }

  lemma {:induction false} OldHasWay(n: Node) returns (way: seq<Node>)
    requires OldAccepts(n)
    ensures OldWay(way, n)
    decreases HeightOfNode(n)
  {
    OldStep(n);
    if Measures(n, OLD_KINDS) {
      way := [n];
    } else {
      var i :| 0 <= i < |Children(n)| && OldAccepts(Children(n)[i]);
      ChildIsLower(n, i);
      way := OldHasWay(Children(n)[i]);
      LongerWay(n, way);
      way := [n] + way;
    }
  }

  lemma {:induction false} WayHasOld(way: seq<Node>, n: Node)
    requires OldWay(way, n)
    ensures OldAccepts(n)
    decreases |way|
  {
    OldStep(n);
    if |way| > 1 {
      assert way[1] in Children(way[0]);
      assert IsWay(way[1..]);
      WayHasOld(way[1..], way[1]);
      var i :| 0 <= i < |Children(n)| && Children(n)[i] == way[1];
      assert OldAccepts(Children(n)[i]);
    }
  }

  /**
    The old detector accepts a filter exactly when some way leads to a property measured by the
    amassed army, in the old kinds, without looking into a chosen damage source or a distinction.
   */
  lemma OldContainsExactly(f: Filter)
    ensures OldContains(f) <==> exists way :: OldWay(way, F(f))
  {
    if OldContains(f) {
      var way := OldHasWay(F(f));
    }
    if way :| OldWay(way, F(f)) {
      WayHasOld(way, F(f));
    }
  }

  // The new walker

  lemma NewStep(n: Node)
    ensures NewAccepts(n) <==>
            || (n.F? && exists i :: 0 <= i < |Children(n)| && Measures(Children(n)[i], SCOPE_KINDS))
            || exists i :: 0 <= i < |Children(n)| && NewAccepts(Children(n)[i])
  {
    match n
    case F(Typed(properties)) =>
      assert forall i :: 0 <= i < |properties| ==> Children(n)[i] == P(properties[i]);
      if MeasuresArmy(n.filter, SCOPE_KINDS) {
        var i :| 0 <= i < |properties| && properties[i].Measured?
                 && ContainsScope(properties[i].value, AMASSED, SCOPE_KINDS);
        assert Measures(Children(n)[i], SCOPE_KINDS);
      } else if NewAccepts(n) {
        var i :| 0 <= i < |properties| && PropContains(properties[i], (g: Filter) => MeasuresArmy(g, SCOPE_KINDS));
        assert NewAccepts(Children(n)[i]);
      }
    case F(Several(filters)) =>
      assert forall i :: 0 <= i < |filters| ==> Children(n)[i] == F(filters[i]);
      if NewAccepts(n) {
        var i :| 0 <= i < |filters| && FilterContains(filters[i], (g: Filter) => MeasuresArmy(g, SCOPE_KINDS));
        assert NewAccepts(Children(n)[i]);
      }
    case P(AnyOf(props)) =>
      assert forall i :: 0 <= i < |props| ==> Children(n)[i] == P(props[i]);
      if NewAccepts(n) {
        var i :| 0 <= i < |props| && PropContains(props[i], (g: Filter) => MeasuresArmy(g, SCOPE_KINDS));
        assert NewAccepts(Children(n)[i]);
      }
    case F(Not(_)) => OnlyChild(n);
    case F(TrackedSetFiltered(_)) => OnlyChild(n);
    case F(ChosenDamageSource(_)) => OnlyChild(n);
    case P(CanEnchant(_)) => OnlyChild(n);
    case P(Related(_)) => OnlyChild(n);
    case P(DistinctFrom(_)) => OnlyChild(n);
    case P(SharesQuality(_)) => OnlyChild(n);
    case P(NotProp(_)) => OnlyChild(n);
    case _ =>
  }

  lemma {:induction false} NewHasWay(n: Node) returns (way: seq<Node>)
    requires NewAccepts(n)
    ensures NewWay(way, n)
    decreases HeightOfNode(n)
  {
    NewStep(n);
    if n.F? && exists i :: 0 <= i < |Children(n)| && Measures(Children(n)[i], SCOPE_KINDS) {
      var i :| 0 <= i < |Children(n)| && Measures(Children(n)[i], SCOPE_KINDS);
      way := [n, Children(n)[i]];
    } else {
      var i :| 0 <= i < |Children(n)| && NewAccepts(Children(n)[i]);
      ChildIsLower(n, i);
      way := NewHasWay(Children(n)[i]);
      LongerWay(n, way);
      way := [n] + way;
    }
  }

  lemma {:induction false} WayHasNew(way: seq<Node>, n: Node)
    requires NewWay(way, n)
    ensures NewAccepts(n)
    decreases |way|
  {
    NewStep(n);
    assert way[1] in Children(way[0]);
    var i :| 0 <= i < |Children(n)| && Children(n)[i] == way[1];
    if |way| > 2 {
      assert IsWay(way[1..]);
      WayHasNew(way[1..], way[1]);
    }
  }

  /**
    The new detector accepts a filter exactly when some way, whichever, leads to a property
    measured by the amassed army that stands directly in a filter.
   */
  lemma NewContainsExactly(f: Filter)
    ensures NewContains(f) <==> exists way :: NewWay(way, F(f))
  {
    if NewContains(f) {
      var way := NewHasWay(F(f));
    }
    if way :| NewWay(way, F(f)) {
      WayHasNew(way, F(f));
    }
  }
}
