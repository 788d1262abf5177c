/** What the words of a node resource condition mean, in terms of the fields of the nodes:
    compareNodeResourceConditionalToActual and getQuantity in pkg/analyze/node_resources.go. */
module NodeConditions {
  import opened Options
  import opened Text
  import opened NodeResources
  import Sums

  function Reported(r: Resources, kind: Kind): real {
    if kind in r.standard then r.standard[kind] else 0.0
  }

  /** What a node has of a property, by its word. */
  function Has(node: Node, property: string, resourceName: string): Option<real> {
    if property == "cpuCapacity" then Some(Reported(node.capacity, Cpu))
    else if property == "cpuAllocatable" then Some(Reported(node.allocatable, Cpu))
    else if property == "memoryCapacity" then Some(Reported(node.capacity, Memory))
    else if property == "memoryAllocatable" then Some(Reported(node.allocatable, Memory))
    else if property == "podCapacity" then Some(Reported(node.capacity, Pods))
    else if property == "podAllocatable" then Some(Reported(node.allocatable, Pods))
    else if property == "ephemeralStorageCapacity" then Some(Reported(node.capacity, EphemeralStorage))
    else if property == "ephemeralStorageAllocatable" then Some(Reported(node.allocatable, EphemeralStorage))
    else if property == "resourceCapacity" && resourceName in node.capacity.named then
      Some(node.capacity.named[resourceName])
    else if property == "resourceAllocatable" && resourceName in node.allocatable.named then
      Some(node.allocatable.named[resourceName])
    else None
  }

  predicate IsOperator(op: string) {
    op in ["=", "==", "===", "<", ">", "<=", ">="]
  }

  predicate Compares(a: real, op: string, b: real)
    requires IsOperator(op)
  {
    if op == "<" then a < b
    else if op == ">" then a > b
    else if op == "<=" then a <= b
    else if op == ">=" then a >= b
    else a == b
  }

  /** The value of a condition: a whole number, or else a quantity. */
  function Value(word: string, parse: Parser): Option<real> {
    if Atoi(word).Some? then Some(Atoi(word).value as real) else parse(word)
  }

  lemma PropertyWords(node: Node, property: string, resourceName: string)
    ensures GetQuantity(node, PropertyOf(property), resourceName) == Has(node, property, resourceName)
  {
  }

  lemma OperatorWords(op: string, a: real, b: real)
    ensures IsOperator(op) <==> OperatorOf(op) != OtherOperator
    ensures IsOperator(op) ==> (Holds(a, OperatorOf(op), b) <==> Compares(a, op, b))
  {
  }

  ghost predicate SomeHas(nodes: seq<Node>, property: string, resourceName: string) {
    exists i :: 0 <= i < |nodes| && Has(nodes[i], property, resourceName).Some?
  }

  /** m is the least that a node has of the property. */
  ghost predicate IsLeast(nodes: seq<Node>, property: string, resourceName: string, m: real) {
    && (exists i :: 0 <= i < |nodes| && Has(nodes[i], property, resourceName) == Some(m))
    && (forall i, q :: 0 <= i < |nodes| && Has(nodes[i], property, resourceName) == Some(q) ==> m <= q)
  }

  ghost predicate IsGreatest(nodes: seq<Node>, property: string, resourceName: string, m: real) {
    && (exists i :: 0 <= i < |nodes| && Has(nodes[i], property, resourceName) == Some(m))
    && (forall i, q :: 0 <= i < |nodes| && Has(nodes[i], property, resourceName) == Some(q) ==> q <= m)
  }

  /** What the nodes have together. */
  function TotalOf(nodes: seq<Node>, property: string, resourceName: string): real {
    if nodes == [] then 0.0
    else
      (match Has(nodes[0], property, resourceName) case Some(q) => q case None => 0.0)
      + TotalOf(nodes[1..], property, resourceName)
  }

  lemma QuantitiesAreHad(nodes: seq<Node>, property: string, resourceName: string)
    ensures var qs := Quantities(nodes, PropertyOf(property), resourceName);
            && (qs != [] <==> SomeHas(nodes, property, resourceName))
            && forall q :: q in qs <==> exists i :: 0 <= i < |nodes| && Has(nodes[i], property, resourceName) == Some(q)
  {
    var qs := Quantities(nodes, PropertyOf(property), resourceName);
    forall q
      ensures q in qs <==> exists i :: 0 <= i < |nodes| && Has(nodes[i], property, resourceName) == Some(q)
    {
      QuantitiesAreOfNodes(nodes, PropertyOf(property), resourceName, q);
      forall i | 0 <= i < |nodes|
        ensures GetQuantity(nodes[i], PropertyOf(property), resourceName) == Has(nodes[i], property, resourceName)
      {
        PropertyWords(nodes[i], property, resourceName);
      }
    }
    if qs != [] {
      assert qs[0] in qs;
    }
    if i :| 0 <= i < |nodes| && Has(nodes[i], property, resourceName).Some? {
      assert Has(nodes[i], property, resourceName).value in qs;
    }
  }

  /** "min(p) op v" compares the least that a node has of p, and is an error when none has any, when op
      is no operator, or when v has no value. */
  lemma MinMeans(property: string, op: string, desired: string, nodes: seq<Node>, resourceName: string, parse: Parser)
    ensures var r := Decided(("min", property), op, desired, nodes, resourceName, parse);
            if IsOperator(op) && Value(desired, parse).Some? && SomeHas(nodes, property, resourceName) then
              exists m :: IsLeast(nodes, property, resourceName, m)
                && r == Ok(Compares(m, op, Value(desired, parse).value))
            else r == Error
  {
    DecidedAs("min", Min, property, op, desired, nodes, resourceName, parse);
    QuantitiesAreHad(nodes, property, resourceName);
    var qs := Quantities(nodes, PropertyOf(property), resourceName);
    OperatorWords(op, 0.0, 0.0);
    if qs != [] {
      var m := Minimum(qs);
      assert IsMin(qs, m);
      LeastIsLeast(nodes, property, resourceName, qs, m);
      if Value(desired, parse).Some? {
        OperatorWords(op, m, Value(desired, parse).value);
      }
    }
  }

  lemma LeastIsLeast(nodes: seq<Node>, property: string, resourceName: string, qs: seq<real>, m: real)
    requires forall q :: q in qs <==> exists i :: 0 <= i < |nodes| && Has(nodes[i], property, resourceName) == Some(q)
    ensures IsMin(qs, m) ==> IsLeast(nodes, property, resourceName, m)
    ensures IsMax(qs, m) ==> IsGreatest(nodes, property, resourceName, m)
  {
    forall i, q | 0 <= i < |nodes| && Has(nodes[i], property, resourceName) == Some(q)
      ensures q in qs
    {
    }
  }

  /** "max(p) op v" compares the greatest. */
  lemma MaxMeans(property: string, op: string, desired: string, nodes: seq<Node>, resourceName: string, parse: Parser)
    ensures var r := Decided(("max", property), op, desired, nodes, resourceName, parse);
            if IsOperator(op) && Value(desired, parse).Some? && SomeHas(nodes, property, resourceName) then
              exists m :: IsGreatest(nodes, property, resourceName, m)
                && r == Ok(Compares(m, op, Value(desired, parse).value))
            else r == Error
  {
    DecidedAs("max", Max, property, op, desired, nodes, resourceName, parse);
    QuantitiesAreHad(nodes, property, resourceName);
    var qs := Quantities(nodes, PropertyOf(property), resourceName);
    OperatorWords(op, 0.0, 0.0);
    if qs != [] {
      var m := Maximum(qs);
      assert IsMax(qs, m);
      LeastIsLeast(nodes, property, resourceName, qs, m);
      if Value(desired, parse).Some? {
        OperatorWords(op, m, Value(desired, parse).value);
      }
    }
  }

  /** "sum(p) op v" compares what they have together, nothing at all included. */
  lemma SumMeans(property: string, op: string, desired: string, nodes: seq<Node>, resourceName: string, parse: Parser)
    ensures Decided(("sum", property), op, desired, nodes, resourceName, parse) ==
            if IsOperator(op) && Value(desired, parse).Some? then
              Ok(Compares(TotalOf(nodes, property, resourceName), op, Value(desired, parse).value))
            else Error
  {
    SumIsTotal(nodes, property, resourceName);
    DecidedAs("sum", Total, property, op, desired, nodes, resourceName, parse);
    TotalIsCompared(Quantities(nodes, PropertyOf(property), resourceName), |nodes|, op, desired, parse);
  }

  lemma DecidedAs(name: string, f: Function, property: string, op: string, desired: string, nodes: seq<Node>,
                  resourceName: string, parse: Parser)
    requires FunctionOf(name) == f && name != "nodeCondition"
    ensures Decided((name, property), op, desired, nodes, resourceName, parse) ==
            Evaluate(f, Quantities(nodes, PropertyOf(property), resourceName), |nodes|, OperatorOf(op),
                     DesiredOf(desired, parse))
  {
  }

  lemma TotalIsCompared(qs: seq<real>, count: nat, op: string, desired: string, parse: Parser)
    ensures Evaluate(Total, qs, count, OperatorOf(op), DesiredOf(desired, parse)) ==
            if IsOperator(op) && Value(desired, parse).Some? then
              Ok(Compares(Sums.Sum(qs), op, Value(desired, parse).value))
            else Error
  {
    OperatorWords(op, Sums.Sum(qs), if Value(desired, parse).Some? then Value(desired, parse).value else 0.0);
  }

  lemma {:induction false} SumIsTotal(nodes: seq<Node>, property: string, resourceName: string)
    ensures Sums.Sum(Quantities(nodes, PropertyOf(property), resourceName)) == TotalOf(nodes, property, resourceName)
  {
    if nodes != [] {
      var front, last := nodes[..|nodes| - 1], nodes[|nodes| - 1];
      SumIsTotal(front, property, resourceName);
      SumOfMore(nodes, front, last, property, resourceName);
      assert nodes == front + [last];
      TotalOfMore(front, last, property, resourceName);
    }
  }

  lemma SumOfMore(nodes: seq<Node>, front: seq<Node>, last: Node, property: string, resourceName: string)
    requires nodes != [] && front == nodes[..|nodes| - 1] && last == nodes[|nodes| - 1]
    ensures Sums.Sum(Quantities(nodes, PropertyOf(property), resourceName)) ==
            Sums.Sum(Quantities(front, PropertyOf(property), resourceName))
            + match Has(last, property, resourceName) case Some(q) => q case None => 0.0
  {
    PropertyWords(last, property, resourceName);
    var before, p := Quantities(front, PropertyOf(property), resourceName), PropertyOf(property);
    if GetQuantity(last, p, resourceName).Some? {
      Sums.SumMore(before, GetQuantity(last, p, resourceName).value);
    }
  }

  lemma {:induction false} TotalOfMore(nodes: seq<Node>, node: Node, property: string, resourceName: string)
    ensures TotalOf(nodes + [node], property, resourceName) ==
            TotalOf(nodes, property, resourceName)
            + match Has(node, property, resourceName) case Some(q) => q case None => 0.0
  {
    if nodes == [] {
      assert ([] + [node])[1..] == [];
    } else {
      assert (nodes + [node])[1..] == nodes[1..] + [node];
      TotalOfMore(nodes[1..], node, property, resourceName);
    }
  }

  /** "count() op n" compares the number of nodes, with whole numbers only. */
  lemma CountMeans(property: string, op: string, desired: string, nodes: seq<Node>, resourceName: string, parse: Parser)
    ensures Decided(("count", property), op, desired, nodes, resourceName, parse) ==
            if IsOperator(op) && Atoi(desired).Some? then
              Ok(Compares(|nodes| as real, op, Atoi(desired).value as real))
            else Error
  {
    DecidedAs("count", Count, property, op, desired, nodes, resourceName, parse);
    OperatorWords(op, |nodes| as real, if Atoi(desired).Some? then Atoi(desired).value as real else 0.0);
  }

  /** Any other function is an error, but for nodeCondition. */
  lemma OtherFunctionsFail(name: string, property: string, op: string, desired: string, nodes: seq<Node>,
                           resourceName: string, parse: Parser)
    requires name !in ["min", "max", "sum", "count", "nodeCondition"]
    ensures Decided((name, property), op, desired, nodes, resourceName, parse) == Error
  {
  }

  /** nodeCondition holds exactly when some node is in a condition of that type and status. */
  lemma NodeConditionMeans(kind: string, op: string, desired: string, nodes: seq<Node>, resourceName: string,
                           parse: Parser)
    ensures Decided(("nodeCondition", kind), op, desired, nodes, resourceName, parse) ==
            if '=' !in op || kind == "" then Error
            else
              Ok(Atoi(desired).None?
                 && exists i :: 0 <= i < |nodes| && Condition(kind, desired) in nodes[i].conditions)
  {
  }

  /** An empty condition holds; one of two words compares the number of nodes; one of any other number
      of words but three is an error. */
  lemma ConditionsByWords(words: seq<string>, nodes: seq<Node>, resourceName: string, parse: Parser)
    requires words != [] && forall i :: 0 <= i < |words| ==> IsWord(words[i])
    ensures DecidedByText("", nodes, resourceName, parse) == Ok(true)
    ensures var r := DecidedByText(Join(words, ' '), nodes, resourceName, parse);
            && (|words| != 2 && |words| != 3 ==> r == Error)
            && (|words| == 2 ==>
                  r == if IsOperator(words[0]) && Atoi(words[1]).Some? then
                         Ok(Compares(|nodes| as real, words[0], Atoi(words[1]).value as real))
                       else Error)
  {
    TrimJoined(words);
    FieldsOfJoined(words);
    if |words| == 2 {
      CountMeans("", words[0], words[1], nodes, resourceName, parse);
    }
  }

  /** For example "min(cpuCapacity) >= v": every node has at least v. */
  lemma MinCpuCapacity(desired: string, nodes: seq<Node>, parse: Parser)
    requires nodes != [] && Value(desired, parse).Some?
    ensures Decided(("min", "cpuCapacity"), ">=", desired, nodes, "", parse) ==
            Ok(forall i :: 0 <= i < |nodes| ==> Reported(nodes[i].capacity, Cpu) >= Value(desired, parse).value)
  {
    MinMeans("cpuCapacity", ">=", desired, nodes, "", parse);
    forall i | 0 <= i < |nodes|
      ensures Has(nodes[i], "cpuCapacity", "") == Some(Reported(nodes[i].capacity, Cpu))
    {
    }
    var m :| IsLeast(nodes, "cpuCapacity", "", m)
      && Decided(("min", "cpuCapacity"), ">=", desired, nodes, "", parse) == Ok(m >= Value(desired, parse).value);
  }

  /** No text asks for nothing, any other for a quantity that parses and is reached. */
  predicate Reached(actual: real, text: string, parse: Parser) {
    text == "" || (parse(text).Some? && actual >= parse(text).value)
  }

  predicate ReachesStandard(node: Node, filters: Filters, parse: Parser) {
    && Reached(Reported(node.capacity, Cpu), filters.standard(Capacity, Cpu), parse)
    && Reached(Reported(node.allocatable, Cpu), filters.standard(Allocatable, Cpu), parse)
    && Reached(Reported(node.capacity, Memory), filters.standard(Capacity, Memory), parse)
    && Reached(Reported(node.allocatable, Memory), filters.standard(Allocatable, Memory), parse)
    && Reached(Reported(node.capacity, Pods), filters.standard(Capacity, Pods), parse)
    && Reached(Reported(node.allocatable, Pods), filters.standard(Allocatable, Pods), parse)
    && Reached(Reported(node.capacity, EphemeralStorage), filters.standard(Capacity, EphemeralStorage), parse)
    && Reached(Reported(node.allocatable, EphemeralStorage), filters.standard(Allocatable, EphemeralStorage), parse)
  }

  function NamedOr0(r: Resources, name: string): real {
    if name in r.named then r.named[name] else 0.0
  }

  predicate ReachesResource(node: Node, filters: Filters, parse: Parser) {
    filters.resourceName == "" ||
    (&& (filters.resourceName in node.capacity.named || filters.resourceName in node.allocatable.named)
     && Reached(NamedOr0(node.capacity, filters.resourceName), filters.resourceCapacity, parse)
     && Reached(NamedOr0(node.allocatable, filters.resourceName), filters.resourceAllocatable, parse))
  }

  /** A node is kept exactly when it meets the filter on its resource and the label selector and then,
      if there is a taint, has one with that key and effect; if not, has the architecture and reaches
      every standard property. */
  lemma NodeIsKeptIff(node: Node, filters: Filters, parse: Parser, sameArchitecture: (string, string) -> bool)
    ensures NodeMatchesFilters(node, Some(filters), parse, sameArchitecture) == Ok(true) <==>
            && ReachesResource(node, filters, parse)
            && (filters.selector.Some? ==> filters.selector.value(node.labels) == Ok(true))
            && if filters.taint.Some? then
                 exists i :: 0 <= i < |node.taints| && node.taints[i].key == filters.taint.value.key
                               && node.taints[i].effect == filters.taint.value.effect
               else
                 && (filters.architecture == "" || sameArchitecture(node.architecture, filters.architecture))
                 && ReachesStandard(node, filters, parse)
  {
    StandardFiltersPassIff(node, filters, parse);
  }

  lemma StandardFiltersPassIff(node: Node, filters: Filters, parse: Parser)
    ensures StandardFilters(node, filters, parse, Order) == Ok(true) <==> ReachesStandard(node, filters, parse)
  {
    if StandardFilters(node, filters, parse, Order) == Ok(true) {
      forall side, kind | (side, kind) in Order
        ensures Reached(GetStandard(node, side, kind), filters.standard(side, kind), parse)
      {
        StandardFilterHolds(node, filters, parse, Order, side, kind);
      }
      AllStandard();
    } else if ReachesStandard(node, filters, parse) {
      AllPass(node, filters, parse, Order);
    }
  }

  lemma AllStandard()
    ensures (Capacity, Cpu) in Order && (Allocatable, Cpu) in Order
    ensures (Capacity, Memory) in Order && (Allocatable, Memory) in Order
    ensures (Capacity, Pods) in Order && (Allocatable, Pods) in Order
    ensures (Capacity, EphemeralStorage) in Order && (Allocatable, EphemeralStorage) in Order
  {
  }

  lemma {:induction false} AllPass(node: Node, filters: Filters, parse: Parser, properties: seq<(Side, Kind)>)
    requires ReachesStandard(node, filters, parse)
    ensures StandardFilters(node, filters, parse, properties) == Ok(true)
  {
    if properties != [] {
      AllPass(node, filters, parse, properties[1..]);
      var (side, kind) := properties[0];
      match side {
        case Capacity => match kind { case Cpu => case Memory => case Pods => case EphemeralStorage => }
        case Allocatable => match kind { case Cpu => case Memory => case Pods => case EphemeralStorage => }
      }
      assert Reached(GetStandard(node, side, kind), filters.standard(side, kind), parse);
    }
  }
}
