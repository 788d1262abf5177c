/** Aggregates over the nodes of a cluster and the filters that choose the nodes:
    findSum, findMin, findMax, nodeMatchesFilters and compareNodeResourceConditionalToActual in
    pkg/analyze/node_resources.go. Quantities are exact numbers. */
module NodeResources {
  import opened Options
  import opened Text
  import opened Sums

  datatype Kind = Cpu | Memory | Pods | EphemeralStorage

  datatype Side = Capacity | Allocatable

  /** What a condition asks about: one of the eight standard properties, or the resource that the
      filters name; Unknown for any other word. */
  datatype Property = Standard(side: Side, kind: Kind) | Resource(side: Side) | Unknown

  /** A condition of the node: its type and its status. */
  datatype Condition = Condition(kind: string, status: string)

  datatype Taint = Taint(key: string, value: string, effect: string)

  datatype Resources = Resources(standard: map<Kind, real>, named: map<string, real>)

  datatype Node = Node(capacity: Resources, allocatable: Resources, labels: map<string, string>,
                       taints: seq<Taint>, architecture: string, conditions: seq<Condition>)
  {
    function On(side: Side): Resources {
      match side case Capacity => capacity case Allocatable => allocatable
    }
  }

  /** A standard resource that the node does not report counts as zero. */
  function GetStandard(node: Node, side: Side, kind: Kind): real {
    if kind in node.On(side).standard then node.On(side).standard[kind] else 0.0
  }

  /** A named resource that the node does not report is no quantity at all. */
  function GetQuantity(node: Node, property: Property, resourceName: string): Option<real> {
    match property
    case Standard(side, kind) => Some(GetStandard(node, side, kind))
    case Resource(side) =>
      if resourceName in node.On(side).named then Some(node.On(side).named[resourceName]) else None
    case Unknown => None
  }

  /** The quantities of the nodes that have the property, in node order. */
  function Quantities(nodes: seq<Node>, property: Property, resourceName: string): seq<real> {
    if nodes == [] then []
    else
      var front := Quantities(nodes[..|nodes| - 1], property, resourceName);
      match GetQuantity(nodes[|nodes| - 1], property, resourceName)
      case Some(q) => front + [q]
      case None => front
  }

  lemma {:induction false} QuantitiesAreOfNodes(nodes: seq<Node>, property: Property, resourceName: string, q: real)
    ensures q in Quantities(nodes, property, resourceName) <==>
            exists i :: 0 <= i < |nodes| && GetQuantity(nodes[i], property, resourceName) == Some(q)
  {
    if nodes != [] {
      var front := nodes[..|nodes| - 1];
      QuantitiesAreOfNodes(front, property, resourceName, q);
      if i :| 0 <= i < |front| && GetQuantity(front[i], property, resourceName) == Some(q) {
        assert nodes[i] == front[i];
      }
      if i :| 0 <= i < |nodes| && GetQuantity(nodes[i], property, resourceName) == Some(q) {
        assert i < |front| ==> front[i] == nodes[i];
      }
    }
  }

  predicate IsMin(qs: seq<real>, m: real) {
    m in qs && forall i :: 0 <= i < |qs| ==> m <= qs[i]
  }

  predicate IsMax(qs: seq<real>, m: real) {
    m in qs && forall i :: 0 <= i < |qs| ==> qs[i] <= m
  }

  method FindSum(nodes: seq<Node>, property: Property, resourceName: string) returns (sum: real)
    ensures sum == Sum(Quantities(nodes, property, resourceName))
  {
    sum := 0.0;
    for i := 0 to |nodes|
      invariant sum == Sum(Quantities(nodes[..i], property, resourceName))
    {
      assert nodes[..i + 1][..i] == nodes[..i];
      var q := GetQuantity(nodes[i], property, resourceName);
      if q.Some? {
        sum := sum + q.value;
        SumMore(Quantities(nodes[..i], property, resourceName), q.value);
      }
    }
    assert nodes[..|nodes|] == nodes;
  }

  method FindMin(nodes: seq<Node>, property: Property, resourceName: string) returns (min: Option<real>)
    ensures min.None? <==> Quantities(nodes, property, resourceName) == []
    ensures min.Some? ==> IsMin(Quantities(nodes, property, resourceName), min.value)
  {
    min := None;
    for i := 0 to |nodes|
      invariant min.None? <==> Quantities(nodes[..i], property, resourceName) == []
      invariant min.Some? ==> IsMin(Quantities(nodes[..i], property, resourceName), min.value)
    {
      assert nodes[..i + 1][..i] == nodes[..i];
      var q := GetQuantity(nodes[i], property, resourceName);
      if q.Some? && (min.None? || q.value < min.value) {
        min := q;
      }
    }
    assert nodes[..|nodes|] == nodes;
  }

  method FindMax(nodes: seq<Node>, property: Property, resourceName: string) returns (max: Option<real>)
    ensures max.None? <==> Quantities(nodes, property, resourceName) == []
    ensures max.Some? ==> IsMax(Quantities(nodes, property, resourceName), max.value)
  {
    max := None;
    for i := 0 to |nodes|
      invariant max.None? <==> Quantities(nodes[..i], property, resourceName) == []
      invariant max.Some? ==> IsMax(Quantities(nodes[..i], property, resourceName), max.value)
    {
      assert nodes[..i + 1][..i] == nodes[..i];
      var q := GetQuantity(nodes[i], property, resourceName);
      if q.Some? && (max.None? || q.value > max.value) {
        max := q;
      }
    }
    assert nodes[..|nodes|] == nodes;
  }

  datatype Function = Count | Min | Max | Total | OtherFunction

  datatype Operator = Equal | Less | Greater | AtMost | AtLeast | OtherOperator

  /** The right side of a condition: a whole number, or text that may be a quantity. */
  datatype Desired = Number(n: int) | Amount(quantity: Option<real>)

  /** Every failure, panics included, is reported as an error. */
  datatype Outcome<T> = Ok(value: T) | Error

  predicate Holds(actual: real, op: Operator, desired: real)
    requires op != OtherOperator
  {
    match op
    case Equal => actual == desired
    case Less => actual < desired
    case Greater => actual > desired
    case AtMost => actual <= desired
    case AtLeast => actual >= desired
  }

  function DesiredQuantity(desired: Desired): Option<real> {
    match desired
    case Number(n) => Some(n as real)
    case Amount(quantity) => quantity
  }

  method EvaluateAggregate(f: Function, property: Property, op: Operator, desired: Desired,
                           nodes: seq<Node>, resourceName: string)
    returns (r: Outcome<bool>)
    ensures r == Evaluate(f, Quantities(nodes, property, resourceName), |nodes|, op, desired)
  {
    ghost var qs := Quantities(nodes, property, resourceName);
    var actual: Option<real> := None;
    match f {
      case Count =>
        if op == OtherOperator || desired.Amount? {
          return Error;
        }
        return Ok(Holds(|nodes| as real, op, desired.n as real));
      case Min => actual := FindMin(nodes, property, resourceName);
        if actual.Some? {
          OneMinimum(qs, actual.value, Minimum(qs));
        }
      case Max => actual := FindMax(nodes, property, resourceName);
        if actual.Some? {
          OneMaximum(qs, actual.value, Maximum(qs));
        }
      case Total =>
        var sum := FindSum(nodes, property, resourceName);
        actual := Some(sum);
      case OtherFunction =>
    }
    if op == OtherOperator || actual.None? || DesiredQuantity(desired).None? {
      return Error;
    }
    return Ok(Holds(actual.value, op, DesiredQuantity(desired).value));
  }

  type Parser = string -> Option<real>

  /** The function and the property of a word: what stands before the last "(" in front of the last
      ")", and what stands between the two. A word without them counts the nodes. */
  function CallOf(word: string): (call: (string, string)) {
    match LastIndex(word, ')')
    case None => ("count", "")
    case Some(close) =>
      match LastIndex(word[..close], '(')
      case None => ("count", "")
      case Some(start) => (word[..start], word[start + 1..close])
  }

  /** A written call is read as such exactly when its property holds no "(". */
  lemma CallIsReadIff(name: string, property: string)
    ensures CallOf(name + "(" + property + ")") == (name, property) <==> '(' !in property
  {
    var front := name + "(" + property;
    var word := front + ")";
    LastIndexOfSum(front, ")", ')');
    LastIndexOfSum(name + "(", property, '(');
    assert word[..|front|] == front;
    if '(' !in property {
      assert word[..|name|] == name && word[|name| + 1..|front|] == property;
    }
  }

  function FunctionOf(name: string): Function {
    match name
    case "count" => Count
    case "min" => Min
    case "max" => Max
    case "sum" => Total
    case _ => OtherFunction
  }

  function OperatorOf(word: string): Operator {
    if word == "=" || word == "==" || word == "===" then Equal
    else if word == "<" then Less
    else if word == ">" then Greater
    else if word == "<=" then AtMost
    else if word == ">=" then AtLeast
    else OtherOperator
  }

  function PropertyOf(word: string): Property {
    match word
    case "cpuCapacity" => Standard(Capacity, Cpu)
    case "cpuAllocatable" => Standard(Allocatable, Cpu)
    case "memoryCapacity" => Standard(Capacity, Memory)
    case "memoryAllocatable" => Standard(Allocatable, Memory)
    case "podCapacity" => Standard(Capacity, Pods)
    case "podAllocatable" => Standard(Allocatable, Pods)
    case "ephemeralStorageCapacity" => Standard(Capacity, EphemeralStorage)
    case "ephemeralStorageAllocatable" => Standard(Allocatable, EphemeralStorage)
    case "resourceCapacity" => Resource(Capacity)
    case "resourceAllocatable" => Resource(Allocatable)
    case _ => Unknown
  }

  function DesiredOf(word: string, parse: Parser): Desired {
    match Atoi(word) case Some(n) => Number(n) case None => Amount(parse(word))
  }

  predicate HasCondition(nodes: seq<Node>, condition: Condition) {
    exists i :: 0 <= i < |nodes| && condition in nodes[i].conditions
  }

  /** nodeCondition: any operator with an equals sign will do, and a whole number is the status of no
      condition. */
  function EvaluateCondition(kind: string, op: string, status: string, nodes: seq<Node>): Outcome<bool> {
    if '=' !in op || kind == "" then Error
    else Ok(Atoi(status).None? && HasCondition(nodes, Condition(kind, status)))
  }

  /** What a condition of three words says of the nodes. */
  ghost function Decided(call: (string, string), op: string, desired: string, nodes: seq<Node>,
                         resourceName: string, parse: Parser): Outcome<bool> {
    if call.0 == "nodeCondition" then EvaluateCondition(call.1, op, desired, nodes)
    else
      Evaluate(FunctionOf(call.0), Quantities(nodes, PropertyOf(call.1), resourceName), |nodes|,
               OperatorOf(op), DesiredOf(desired, parse))
  }

  /** What a condition says: an empty one holds, two words are about the number of nodes, three are a
      call, an operator and a value, and anything else is an error. */
  ghost function DecidedByText(conditional: string, nodes: seq<Node>, resourceName: string,
                               parse: Parser): Outcome<bool> {
    var words := Fields(TrimSpace(conditional));
    if conditional == "" then Ok(true)
    else if |words| == 2 then Decided(("count", ""), words[0], words[1], nodes, resourceName, parse)
    else if |words| == 3 then Decided(CallOf(words[0]), words[1], words[2], nodes, resourceName, parse)
    else Error
  }

  method CompareNodeResourceConditionalToActual(conditional: string, nodes: seq<Node>, filters: Option<Filters>,
                                                parse: Parser) returns (r: Outcome<bool>)
    ensures r == DecidedByText(conditional, nodes, if filters.Some? then filters.value.resourceName else "", parse)
  {
    if conditional == "" {
      return Ok(true);
    }
    var parts := Fields(TrimSpace(conditional));
    if |parts| == 2 {
      parts := ["count"] + parts;
    }
    if |parts| != 3 {
      return Error;
    }
    var (name, property) := CallOf(parts[0]);
    var resourceName := if filters.Some? then filters.value.resourceName else "";
    if name == "nodeCondition" {
      if '=' !in parts[1] || property == "" {
        return Error;
      }
      r := FindCondition(nodes, property, parts[2]);
      return;
    }
    r := EvaluateAggregate(FunctionOf(name), PropertyOf(property), OperatorOf(parts[1]), DesiredOf(parts[2], parse),
                           nodes, resourceName);
  }

  method FindCondition(nodes: seq<Node>, kind: string, status: string) returns (r: Outcome<bool>)
    ensures r == Ok(Atoi(status).None? && HasCondition(nodes, Condition(kind, status)))
  {
    for i := 0 to |nodes|
      invariant Atoi(status).None? ==> forall k :: 0 <= k < i ==> Condition(kind, status) !in nodes[k].conditions
    {
      var conditions := nodes[i].conditions;
      for j := 0 to |conditions|
        invariant Atoi(status).None? ==> Condition(kind, status) !in conditions[..j]
      {
        if conditions[j].kind == kind && Atoi(status).None? && conditions[j].status == status {
          assert Condition(kind, status) in nodes[i].conditions;
          return Ok(true);
        }
      }
      assert conditions[..|conditions|] == conditions;
    }
    return Ok(false);
  }

  /** A written condition is decided as it is written. */
  lemma ConditionIsRead(name: string, property: string, op: string, desired: string, nodes: seq<Node>,
                        resourceName: string, parse: Parser)
    requires IsWord(op) && IsWord(desired) && IsWord(name + "(" + property + ")") && '(' !in property
    ensures DecidedByText(Join([name + "(" + property + ")", op, desired], ' '), nodes, resourceName, parse) ==
            Decided((name, property), op, desired, nodes, resourceName, parse)
  {
    var words := [name + "(" + property + ")", op, desired];
    CallIsReadIff(name, property);
    TrimJoined(words);
    FieldsOfJoined(words);
  }

  /** The word holds a ")" behind a "(". */
  predicate HasCall(word: string) {
    exists i, j :: 0 <= i < j < |word| && word[i] == '(' && word[j] == ')'
  }

  lemma NoCallCounts(word: string)
    requires !HasCall(word)
    ensures CallOf(word) == ("count", "")
  {
    var close := LastIndex(word, ')');
    if close.Some? {
      forall i | 0 <= i < close.value
        ensures word[i] != '('
      {
      }
    }
  }

  /** A first word without a call is about the number of nodes, whatever it says. */
  lemma BareWordCounts(word: string, op: string, desired: string, nodes: seq<Node>, resourceName: string, parse: Parser)
    requires IsWord(word) && IsWord(op) && IsWord(desired) && !HasCall(word)
    ensures DecidedByText(Join([word, op, desired], ' '), nodes, resourceName, parse) ==
            DecidedByText(Join([op, desired], ' '), nodes, resourceName, parse)
  {
    NoCallCounts(word);
    TrimJoined([word, op, desired]);
    TrimJoined([op, desired]);
    FieldsOfJoined([word, op, desired]);
    FieldsOfJoined([op, desired]);
  }

  /** The operator of a nodeCondition decides nothing but whether there is an error: "!=", "<=" and
      ">=" ask for equality too. */
  lemma ConditionOperatorIsIgnored(kind: string, op: string, desired: string, nodes: seq<Node>,
                                   resourceName: string, parse: Parser)
    ensures var r := Decided(("nodeCondition", kind), op, desired, nodes, resourceName, parse);
            && (r.Error? <==> '=' !in op || kind == "")
            && (r.Ok? ==> r == Decided(("nodeCondition", kind), "==", desired, nodes, resourceName, parse))
            && (r == Ok(true) ==> HasCondition(nodes, Condition(kind, desired)))
  {
  }

  lemma TrimJoined(words: seq<string>)
    requires |words| > 0 && forall i :: 0 <= i < |words| ==> IsWord(words[i])
    ensures Join(words, ' ') != "" && TrimSpace(Join(words, ' ')) == Join(words, ' ')
  {
    var s := Join(words, ' ');
    JoinedEnds(words);
    TrimPadded(s, 0);
    assert s + Spaces(0) == s;
  }

  lemma {:induction false} JoinedEnds(words: seq<string>)
    requires |words| > 0 && forall i :: 0 <= i < |words| ==> IsWord(words[i])
    ensures var s := Join(words, ' '); s != "" && !IsSpace(s[0]) && !IsSpace(s[|s| - 1])
  {
    if |words| > 1 {
      JoinedEnds(words[1..]);
    }
  }

  ghost function Minimum(qs: seq<real>): (m: real)
    requires qs != []
    ensures IsMin(qs, m)
  {
    if |qs| == 1 then qs[0]
    else
      var m, last := Minimum(qs[..|qs| - 1]), qs[|qs| - 1];
      if last < m then last else m
  }

  ghost function Maximum(qs: seq<real>): (m: real)
    requires qs != []
    ensures IsMax(qs, m)
  {
    if |qs| == 1 then qs[0]
    else
      var m, last := Maximum(qs[..|qs| - 1]), qs[|qs| - 1];
      if last > m then last else m
  }

  /** The sum lies between the least and the greatest quantity, times the number of quantities. */
  lemma SumBetweenExtremes(qs: seq<real>, low: real, high: real)
    requires IsMin(qs, low) && IsMax(qs, high)
    ensures low * |qs| as real <= Sum(qs) <= high * |qs| as real
  {
    SumIsBounded(qs, low, high);
  }

  lemma OneMinimum(qs: seq<real>, m: real, m': real)
    requires IsMin(qs, m) && IsMin(qs, m')
    ensures m == m'
  {
    var i, j :| 0 <= i < |qs| && qs[i] == m && 0 <= j < |qs| && qs[j] == m';
  }

  lemma OneMaximum(qs: seq<real>, m: real, m': real)
    requires IsMax(qs, m) && IsMax(qs, m')
    ensures m == m'
  {
    var i, j :| 0 <= i < |qs| && qs[i] == m && 0 <= j < |qs| && qs[j] == m';
  }

  ghost function Evaluate(f: Function, qs: seq<real>, count: nat, op: Operator, desired: Desired): Outcome<bool> {
    if op == OtherOperator || f == OtherFunction then Error
    else if f == Count then (if desired.Number? then Ok(Holds(count as real, op, desired.n as real)) else Error)
    else if DesiredQuantity(desired).None? || (f != Total && qs == []) then Error
    else
      var actual := match f case Min => Minimum(qs) case Max => Maximum(qs) case _ => Sum(qs);
      Ok(Holds(actual, op, DesiredQuantity(desired).value))
  }

  predicate Has(node: Node, property: Property, resourceName: string) {
    GetQuantity(node, property, resourceName).Some?
  }

  /** The node has at least v of the property, or at most v. */
  predicate Meets(node: Node, property: Property, resourceName: string, op: Operator, v: real)
    requires op != OtherOperator
  {
    && Has(node, property, resourceName)
    && Holds(GetQuantity(node, property, resourceName).value, op, v)
  }

  ghost predicate SomeNodeHas(nodes: seq<Node>, property: Property, resourceName: string) {
    exists i :: 0 <= i < |nodes| && Has(nodes[i], property, resourceName)
  }

  ghost predicate SomeNodeMeets(nodes: seq<Node>, property: Property, resourceName: string, op: Operator, v: real)
    requires op != OtherOperator
  {
    exists i :: 0 <= i < |nodes| && Meets(nodes[i], property, resourceName, op, v)
  }

  ghost predicate EveryNodeMeets(nodes: seq<Node>, property: Property, resourceName: string, op: Operator, v: real)
    requires op != OtherOperator
  {
    forall i :: 0 <= i < |nodes| && Has(nodes[i], property, resourceName) ==>
      Meets(nodes[i], property, resourceName, op, v)
  }

  lemma QuantitiesMeet(nodes: seq<Node>, property: Property, resourceName: string, op: Operator, v: real)
    requires op != OtherOperator
    ensures var qs := Quantities(nodes, property, resourceName);
            && (qs != [] <==> SomeNodeHas(nodes, property, resourceName))
            && ((exists q :: q in qs && Holds(q, op, v)) <==> SomeNodeMeets(nodes, property, resourceName, op, v))
            && ((forall q :: q in qs ==> Holds(q, op, v)) <==> EveryNodeMeets(nodes, property, resourceName, op, v))
  {
    var qs := Quantities(nodes, property, resourceName);
    forall q
      ensures q in qs <==> exists i :: 0 <= i < |nodes| && GetQuantity(nodes[i], property, resourceName) == Some(q)
    {
      QuantitiesAreOfNodes(nodes, property, resourceName, q);
    }
    if qs != [] {
      assert qs[0] in qs;
    }
    forall i | 0 <= i < |nodes| && Has(nodes[i], property, resourceName)
      ensures GetQuantity(nodes[i], property, resourceName).value in qs
    {
    }
  }

  /** "min(p) >= v" holds exactly when every node that has p has at least v, "min(p) <= v" when some
      node has at most v. Each is an error exactly when no node has p. */
  lemma MinIsAQuantifier(nodes: seq<Node>, property: Property, resourceName: string, v: real, desired: Desired)
    requires DesiredQuantity(desired) == Some(v)
    ensures var qs, some := Quantities(nodes, property, resourceName), SomeNodeHas(nodes, property, resourceName);
            && Evaluate(Min, qs, |nodes|, AtLeast, desired) ==
               (if some then Ok(EveryNodeMeets(nodes, property, resourceName, AtLeast, v)) else Error)
            && Evaluate(Min, qs, |nodes|, AtMost, desired) ==
               (if some then Ok(SomeNodeMeets(nodes, property, resourceName, AtMost, v)) else Error)
  {
    var qs := Quantities(nodes, property, resourceName);
    QuantitiesMeet(nodes, property, resourceName, AtLeast, v);
    QuantitiesMeet(nodes, property, resourceName, AtMost, v);
    if qs != [] {
      MinimumReaches(qs, Minimum(qs), v);
    }
  }

  /** And dually "max(p) <= v", "max(p) >= v". */
  lemma MaxIsAQuantifier(nodes: seq<Node>, property: Property, resourceName: string, v: real, desired: Desired)
    requires DesiredQuantity(desired) == Some(v)
    ensures var qs, some := Quantities(nodes, property, resourceName), SomeNodeHas(nodes, property, resourceName);
            && Evaluate(Max, qs, |nodes|, AtMost, desired) ==
               (if some then Ok(EveryNodeMeets(nodes, property, resourceName, AtMost, v)) else Error)
            && Evaluate(Max, qs, |nodes|, AtLeast, desired) ==
               (if some then Ok(SomeNodeMeets(nodes, property, resourceName, AtLeast, v)) else Error)
  {
    var qs := Quantities(nodes, property, resourceName);
    QuantitiesMeet(nodes, property, resourceName, AtLeast, v);
    QuantitiesMeet(nodes, property, resourceName, AtMost, v);
    if qs != [] {
      MaximumReaches(qs, Maximum(qs), v);
    }
  }

  lemma MinimumReaches(qs: seq<real>, m: real, v: real)
    requires IsMin(qs, m)
    ensures m >= v <==> forall q :: q in qs ==> q >= v
    ensures m <= v <==> exists q :: q in qs && q <= v
  {
  }

  lemma MaximumReaches(qs: seq<real>, m: real, v: real)
    requires IsMax(qs, m)
    ensures m <= v <==> forall q :: q in qs ==> q <= v
    ensures m >= v <==> exists q :: q in qs && q >= v
  {
  }

  /** A filter on the standard properties holds a text per property, "" for none. selector is the
      label selector, if there is one. */
  datatype Filters = Filters(resourceName: string, resourceCapacity: string, resourceAllocatable: string,
                             selector: Option<map<string, string> -> Outcome<bool>>, taint: Option<Taint>,
                             architecture: string, standard: (Side, Kind) -> string)

  /** One threshold: no text passes, text that is no quantity is an error. */
  function Reaches(actual: real, text: string, parse: Parser): Outcome<bool> {
    if text == "" then Ok(true)
    else match parse(text) case None => Error case Some(v) => Ok(actual >= v)
  }

  /** Go on with the next filter only when this one passes. */
  function AndThen(first: Outcome<bool>, next: Outcome<bool>): Outcome<bool> {
    if first == Ok(true) then next else first
  }

  function NamedQuantity(node: Node, side: Side, resourceName: string): real {
    if resourceName in node.On(side).named then node.On(side).named[resourceName] else 0.0
  }

  function ResourceFilter(node: Node, filters: Filters, parse: Parser): Outcome<bool> {
    var name := filters.resourceName;
    if name == "" then Ok(true)
    else if name !in node.capacity.named && name !in node.allocatable.named then Ok(false)
    else AndThen(Reaches(NamedQuantity(node, Capacity, name), filters.resourceCapacity, parse),
                 Reaches(NamedQuantity(node, Allocatable, name), filters.resourceAllocatable, parse))
  }

  /** The standard properties in the order in which their filters are tried. */
  const Order: seq<(Side, Kind)> :=
    [(Capacity, Cpu), (Allocatable, Cpu), (Capacity, Memory), (Allocatable, Memory), (Capacity, Pods),
     (Allocatable, Pods), (Capacity, EphemeralStorage), (Allocatable, EphemeralStorage)]

  function StandardFilters(node: Node, filters: Filters, parse: Parser, properties: seq<(Side, Kind)>): Outcome<bool> {
    if properties == [] then Ok(true)
    else
      var (side, kind) := properties[0];
      AndThen(Reaches(GetStandard(node, side, kind), filters.standard(side, kind), parse),
              StandardFilters(node, filters, parse, properties[1..]))
  }

  /** taints.TaintExists: the value of a taint does not matter. */
  predicate TaintExists(taints: seq<Taint>, taint: Taint) {
    exists i :: 0 <= i < |taints| && taints[i].key == taint.key && taints[i].effect == taint.effect
  }

  /** sameArchitecture: equal but for case. */
  function NodeMatchesFilters(node: Node, filters: Option<Filters>, parse: Parser,
                              sameArchitecture: (string, string) -> bool): Outcome<bool> {
    if filters.None? then Ok(true)
    else
      var f := filters.value;
      var selected := if f.selector.Some? then f.selector.value(node.labels) else Ok(true);
      AndThen(AndThen(ResourceFilter(node, f, parse), selected),
              if f.taint.Some? then Ok(TaintExists(node.taints, f.taint.value))
              else if f.architecture != "" && !sameArchitecture(node.architecture, f.architecture) then Ok(false)
              else StandardFilters(node, f, parse, Order))
  }

  lemma {:induction false} StandardFilterHolds(node: Node, filters: Filters, parse: Parser,
                                               properties: seq<(Side, Kind)>, side: Side, kind: Kind)
    requires StandardFilters(node, filters, parse, properties) == Ok(true) && (side, kind) in properties
    ensures Reaches(GetStandard(node, side, kind), filters.standard(side, kind), parse) == Ok(true)
  {
    if properties[0] != (side, kind) {
      StandardFilterHolds(node, filters, parse, properties[1..], side, kind);
    }
  }

  lemma KeptNodeReaches(node: Node, filters: Filters, parse: Parser, sameArchitecture: (string, string) -> bool,
                        side: Side, kind: Kind, v: real)
    requires NodeMatchesFilters(node, Some(filters), parse, sameArchitecture) == Ok(true) && filters.taint.None?
    requires filters.standard(side, kind) != "" && parse(filters.standard(side, kind)) == Some(v)
    ensures GetStandard(node, side, kind) >= v
  {
    assert (side, kind) in Order;
    StandardFilterHolds(node, filters, parse, Order, side, kind);
  }

  /** The nodes that match, in their order. */
  function Kept(nodes: seq<Node>, filters: Option<Filters>, parse: Parser,
                sameArchitecture: (string, string) -> bool): (kept: seq<Node>)
    ensures forall i :: 0 <= i < |kept| ==> NodeMatchesFilters(kept[i], filters, parse, sameArchitecture) == Ok(true)
  {
    if nodes == [] then []
    else
      var front, last := Kept(nodes[..|nodes| - 1], filters, parse, sameArchitecture), nodes[|nodes| - 1];
      if NodeMatchesFilters(last, filters, parse, sameArchitecture) == Ok(true) then front + [last] else front
  }

  /** A node behind others is kept behind those kept of them, exactly when it matches. */
  lemma KeptMore(nodes: seq<Node>, node: Node, filters: Option<Filters>, parse: Parser,
                 sameArchitecture: (string, string) -> bool)
    ensures Kept([], filters, parse, sameArchitecture) == []
    ensures var before := Kept(nodes, filters, parse, sameArchitecture);
            Kept(nodes + [node], filters, parse, sameArchitecture) ==
            if NodeMatchesFilters(node, filters, parse, sameArchitecture) == Ok(true) then before + [node] else before
  {
    assert (nodes + [node])[..|nodes|] == nodes;
  }

  /** The loop of analyzeNodeResources that keeps the nodes that match; any error ends it. */
  method MatchingNodes(nodes: seq<Node>, filters: Option<Filters>, parse: Parser,
                       sameArchitecture: (string, string) -> bool) returns (r: Outcome<seq<Node>>)
    ensures r == if exists i ::
                      0 <= i < |nodes| && NodeMatchesFilters(nodes[i], filters, parse, sameArchitecture).Error?
                 then Error else Ok(Kept(nodes, filters, parse, sameArchitecture))
  {
    var kept: seq<Node> := [];
    for i := 0 to |nodes|
      invariant kept == Kept(nodes[..i], filters, parse, sameArchitecture)
      invariant forall j :: 0 <= j < i ==> NodeMatchesFilters(nodes[j], filters, parse, sameArchitecture).Ok?
    {
      var isMatch := NodeMatchesFilters(nodes[i], filters, parse, sameArchitecture);
      if isMatch.Error? {
        return Error;
      }
      assert nodes[..i + 1][..i] == nodes[..i];
      if isMatch.value {
        kept := kept + [nodes[i]];
      }
    }
    assert nodes[..|nodes|] == nodes;
    return Ok(kept);
  }

  /** Without a taint, whatever nodes the filters keep satisfy the filters as conditions: with
      cpuCapacity v, "min(cpuCapacity) >= v" holds of them, if they are any. */
  lemma {:induction false} FilteredNodesMeetTheirFilter(all: seq<Node>, filters: Filters, parse: Parser,
      sameArchitecture: (string, string) -> bool, side: Side, kind: Kind, v: real, nodes: seq<Node>)
    requires nodes == Kept(all, Some(filters), parse, sameArchitecture) && nodes != []
    requires filters.taint.None?
    requires filters.standard(side, kind) != "" && parse(filters.standard(side, kind)) == Some(v)
    ensures var qs := Quantities(nodes, Standard(side, kind), filters.resourceName);
            Evaluate(Min, qs, |nodes|, AtLeast, Amount(Some(v))) == Ok(true)
  {
    var property, name := Standard(side, kind), filters.resourceName;
    MinIsAQuantifier(nodes, property, name, v, Amount(Some(v)));
    assert Has(nodes[0], property, name);
    forall i | 0 <= i < |nodes|
      ensures Meets(nodes[i], property, name, AtLeast, v)
    {
      KeptNodeReaches(nodes[i], filters, parse, sameArchitecture, side, kind, v);
    }
  }

  /** A taint ends the tests early: with one, the filters on architecture and on the standard
      properties change nothing, not even by failing to parse. */
  lemma TaintHidesLaterFilters(node: Node, filters: Filters, parse: Parser, sameArchitecture: (string, string) -> bool,
                               architecture: string, standard: (Side, Kind) -> string)
    requires filters.taint.Some?
    ensures var others := filters.(architecture := architecture, standard := standard);
            NodeMatchesFilters(node, Some(others), parse, sameArchitecture) ==
            NodeMatchesFilters(node, Some(filters), parse, sameArchitecture)
  {
  }

  ghost predicate Keeps(filters: Filters, parse: Parser, sameArchitecture: (string, string) -> bool, node: Node) {
    NodeMatchesFilters(node, Some(filters), parse, sameArchitecture) == Ok(true)
  }

  /** The node with another quantity of a standard property. */
  function WithStandard(node: Node, side: Side, kind: Kind, q: real): (changed: Node)
    ensures GetStandard(changed, side, kind) == q
  {
    match side
    case Capacity => node.(capacity := node.capacity.(standard := node.capacity.standard[kind := q]))
    case Allocatable => node.(allocatable := node.allocatable.(standard := node.allocatable.standard[kind := q]))
  }

  lemma TaintIgnoresStandard(filters: Filters, parse: Parser, sameArchitecture: (string, string) -> bool,
                             node: Node, side: Side, kind: Kind, q: real)
    requires filters.taint.Some? && Keeps(filters, parse, sameArchitecture, node)
    ensures Keeps(filters, parse, sameArchitecture, WithStandard(node, side, kind, q))
  {
    var changed := WithStandard(node, side, kind, q);
    assert ResourceFilter(changed, filters, parse) == ResourceFilter(node, filters, parse);
  }

  predicate Parses(text: string, parse: Parser) {
    text == "" || parse(text).Some?
  }

  /** The filters in front of the taint can pass: their texts parse and their selector selects some
      labels. */
  ghost predicate Satisfiable(filters: Filters, parse: Parser) {
    && (filters.resourceName != "" ==>
          Parses(filters.resourceCapacity, parse) && Parses(filters.resourceAllocatable, parse))
    && (filters.selector.Some? ==> exists labels :: filters.selector.value(labels) == Ok(true))
  }

  /** With a taint some node is kept exactly when they can. */
  lemma KeepsSomeIff(filters: Filters, parse: Parser, sameArchitecture: (string, string) -> bool)
    requires filters.taint.Some?
    ensures (exists node :: Keeps(filters, parse, sameArchitecture, node)) <==> Satisfiable(filters, parse)
  {
    if Satisfiable(filters, parse) {
      var labels := map[];
      if filters.selector.Some? {
        labels :| filters.selector.value(labels) == Ok(true);
      }
      var node := Node(Offering(filters.resourceName, filters.resourceCapacity, parse),
                       Offering(filters.resourceName, filters.resourceAllocatable, parse),
                       labels, [filters.taint.value], "", []);
      assert node.taints[0] == filters.taint.value;
      assert Keeps(filters, parse, sameArchitecture, node);
    }
  }

  /** As much of the resource as the text asks for. */
  function Offering(resourceName: string, text: string, parse: Parser): Resources {
    Resources(map[], map[resourceName := match parse(text) case Some(q) => q case None => 0.0])
  }

  /** A filter p = v keeps only nodes with at least v exactly when there is no taint, or the filters
      in front of the taint can never pass and so keep nothing at all. */
  lemma FilterHoldsIff(filters: Filters, parse: Parser, sameArchitecture: (string, string) -> bool,
                       side: Side, kind: Kind, v: real)
    requires filters.standard(side, kind) != "" && parse(filters.standard(side, kind)) == Some(v)
    ensures (forall node :: Keeps(filters, parse, sameArchitecture, node) ==> GetStandard(node, side, kind) >= v) <==>
            filters.taint.None? || !Satisfiable(filters, parse)
  {
    if filters.taint.Some? {
      KeepsSomeIff(filters, parse, sameArchitecture);
    }
    if filters.taint.None? {
      forall node | Keeps(filters, parse, sameArchitecture, node)
        ensures GetStandard(node, side, kind) >= v
      {
        KeptNodeReaches(node, filters, parse, sameArchitecture, side, kind, v);
      }
    } else if node :| Keeps(filters, parse, sameArchitecture, node) {
      TaintIgnoresStandard(filters, parse, sameArchitecture, node, side, kind, v - 1.0);
      assert GetStandard(WithStandard(node, side, kind, v - 1.0), side, kind) < v;
    }
  }

  /** For example this node, below the threshold of its filter. */
  lemma TaintKeepsANodeBelowTheThreshold(parse: Parser, sameArchitecture: (string, string) -> bool)
    requires parse("2") == Some(2.0)
    ensures var taint := Taint("key", "", "NoSchedule");
            var filters := Filters("", "", "", None, Some(taint), "", (side, kind) => "2");
            var node := Node(Resources(map[Cpu := 1.0], map[]), Resources(map[], map[]), map[], [taint], "", []);
            && NodeMatchesFilters(node, Some(filters), parse, sameArchitecture) == Ok(true)
            && var qs := Quantities([node], Standard(Capacity, Cpu), "");
               Evaluate(Min, qs, 1, AtLeast, Amount(Some(2.0))) == Ok(false)
  {
    var taint := Taint("key", "", "NoSchedule");
    var node := Node(Resources(map[Cpu := 1.0], map[]), Resources(map[], map[]), map[], [taint], "", []);
    assert node.taints[0] == taint;
    assert Quantities([node], Standard(Capacity, Cpu), "") == [1.0];
  }
}
