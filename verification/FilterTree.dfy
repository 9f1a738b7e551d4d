// Evaluation of an LDAPv3 filter: a tree of circular sibling lists whose nodes carry their own result.
module FilterTree {
  import opened Bytes
  import opened Glob

  const LDAP_AND := 259
  const LDAP_OR := 260
  const LDAP_NOT := 261
  const EXPR_PRESENT := 265
  const EXPR_APPROX := 266

  /** An attribute, or the operand of a leaf: a name and a value whose comparison is left open. */
  datatype Attr<V> = Attr(name: seq<byte>, value: V)

  /** SLPEvaluateAttributes: does the leaf's operand compare as the operator asks to the attribute? */
  type Compare<!V> = (Attr<V>, Attr<V>, int) -> bool

  /**
   * A filter node, or the sentinel of a sibling list (`isHead`). The sentinel of a node's children is part of
   * the node. `visits` counts the evaluations.
   */
  class Filter<V> {
    var next: Filter?<V>
    var prev: Filter?<V>
    const isHead: bool
    const operator: int
    var logicalValue: int
    const children: Filter?<V>
    const operand: Option<Attr<V>>
    ghost var visits: nat

    /** A sentinel: an empty circular list. */
    constructor Head()
      ensures isHead && next == this && prev == this && children == null
    {
      isHead, operator, children, operand := true, -1, null, None;
      new;
      next, prev := this, this;
    }

    /** SLPAllocFilter, with the leaf's operand linked in. */
    constructor (operator: int, operand: Option<Attr<V>>)
      ensures !isHead && next == this && prev == this && this.operator == operator && this.operand == operand
      ensures children != null && fresh(children) && children.isHead
              && children.next == children && children.prev == children
    {
      var h := new Filter<V>.Head();
      isHead, this.operator, this.operand, children := false, operator, operand, h;
      new;
      next, prev := this, this;
    }

    /** SLP_IS_EMPTY. */
    predicate IsEmpty()
      reads this`next, this`prev
    {
      next == this && prev == this
    }
  }

  /** The rest of a sibling list: a node, its children, and the siblings after it. */
  datatype Forest<V> = End | Sib(node: Filter<V>, kids: Forest<V>, rest: Forest<V>)

  /** The nodes of a forest without the sentinels. */
  ghost function Items<V>(f: Forest<V>): (s: set<Filter<V>>) {
    if f.End? then {} else {f.node} + Items(f.kids) + Items(f.rest)
  }

  ghost function Sentinels<V>(f: Forest<V>): (s: set<Filter<V>>) {
    if f.End? then {}
    else (if f.node.children == null then {} else {f.node.children}) + Sentinels(f.kids) + Sentinels(f.rest)
  }

  /** No node occurs twice. */
  ghost predicate Tree<V>(f: Forest<V>) {
    f.Sib? ==> f.node !in Items(f.kids) + Items(f.rest) &&
               Items(f.kids) !! Items(f.rest) && Tree(f.kids) && Tree(f.rest)
  }

  function First<V>(f: Forest<V>, head: Filter<V>): Filter<V> {
    if f.End? then head else f.node
  }

  /** The forest is the list from the node after `before` to the sentinel `head`. */
  ghost predicate Linked<V>(f: Forest<V>, before: Filter<V>, head: Filter<V>)
    reads head`prev, Items(f)`next, Items(f)`prev, Sentinels(f)`next, Sentinels(f)`prev
    decreases f, 0
  {
    match f
    case End => head.isHead && head.prev == before
    case Sib(n, kids, rest) =>
      && !n.isHead && n.prev == before && n.next == First(rest, head) && Linked(rest, n, head)
      && HasChildren(n, kids)
  }

  /** The forest is the list of the node's children. */
  ghost predicate HasChildren<V>(n: Filter<V>, kids: Forest<V>)
    reads n`next, n`prev, Items(kids)`next, Items(kids)`prev, Sentinels(kids)`next, Sentinels(kids)`prev
    reads if n.children == null then {} else {n.children}`next
    reads if n.children == null then {} else {n.children}`prev
    decreases kids, 1
  {
    n.children != null && n.children.isHead && n.children.next == First(kids, n.children) &&
    Linked(kids, n.children, n.children)
  }

  /** Where the evaluation of a forest starts: at the root of the tree, or inside a sibling list. */
  datatype Place<V> = Root | Among(before: Filter<V>, head: Filter<V>)

  ghost predicate Placed<V>(f: Forest<V>, place: Place<V>)
    requires f.Sib?
    reads Items(f)`next, Items(f)`prev, Sentinels(f)`next, Sentinels(f)`prev
    reads if place.Root? then {} else {place.head}`prev
  {
    match place
    case Root => !f.node.isHead && f.node.IsEmpty() && f.rest.End? && HasChildren(f.node, f.kids)
    case Among(before, head) => Linked(f, before, head)
  }

  // ----- The meaning of a filter -----

  /** The first attribute whose name the operand's name matches as a pattern. */
  function FirstNamed<V>(attrs: seq<Attr<V>>, name: seq<byte>): Option<Attr<V>> {
    if attrs == [] then None
    else if Matches(name, attrs[0].name, true) then Some(attrs[0])
    else FirstNamed(attrs[1..], name)
  }

  predicate LeafMeaning<V>(operand: Option<Attr<V>>, operator: int, attrs: seq<Attr<V>>, compare: Compare<V>) {
    operand.Some? &&
    match FirstNamed(attrs, operand.value.name)
    case None => false
    case Some(a) => operator == EXPR_PRESENT || operator == EXPR_APPROX || compare(operand.value, a, operator)
  }

  predicate Meaning<V>(n: Filter<V>, kids: Forest<V>, attrs: seq<Attr<V>>, compare: Compare<V>)
    decreases kids, 1
  {
    if n.operator == LDAP_AND then AllTrue(kids, attrs, compare)
    else if n.operator == LDAP_OR then SomeTrue(kids, attrs, compare)
    else if n.operator == LDAP_NOT then !SomeTrue(kids, attrs, compare)
    else LeafMeaning(n.operand, n.operator, attrs, compare)
  }

  predicate AllTrue<V>(f: Forest<V>, attrs: seq<Attr<V>>, compare: Compare<V>)
    decreases f, 0
  {
    f.Sib? ==> Meaning(f.node, f.kids, attrs, compare) && AllTrue(f.rest, attrs, compare)
  }

  predicate SomeTrue<V>(f: Forest<V>, attrs: seq<Attr<V>>, compare: Compare<V>)
    decreases f, 0
  {
    f.Sib? && (Meaning(f.node, f.kids, attrs, compare) || SomeTrue(f.rest, attrs, compare))
  }

  function Flag(b: bool): int {
    if b then 1 else 0
  }

  /** Every node of the forest holds its meaning. */
  ghost predicate Evaluated<V>(f: Forest<V>, attrs: seq<Attr<V>>, compare: Compare<V>)
    reads Items(f)`logicalValue
  {
    f.Sib? ==>
      && f.node.logicalValue == Flag(Meaning(f.node, f.kids, attrs, compare))
      && Evaluated(f.kids, attrs, compare) && Evaluated(f.rest, attrs, compare)
  }

  // ----- SLPEvaluateFilterTree -----

  /** What the links at a node say: its children, and whether a sibling follows. */
  lemma Links<V>(f: Forest<V>, place: Place<V>)
    requires f.Sib? && Tree(f) && Placed(f, place)
    ensures HasChildren(f.node, f.kids) && f.node.next != null
    ensures f.node.children.IsEmpty() <==> f.kids.End?
    ensures var h: Filter<V> := f.node.children; f.kids.Sib? ==> h.next == f.kids.node && Placed(f.kids, Among(h, h))
    ensures (f.node.next.isHead || f.node.next.IsEmpty()) <==> f.rest.End?
    ensures f.rest.Sib? ==> place.Among? && f.node.next == f.rest.node && Placed(f.rest, Among(f.node, place.head))
  {
    var h := f.node.children;
    assert HasChildren(f.node, f.kids);
    assert Linked(f.kids, h, h);
    assert h != null;
    if place.Among? { assert Linked(f.rest, f.node, place.head); }
    if f.rest.Sib? { assert f.rest.node in Items(f.rest); }
  }

  lemma Parts<V>(f: Forest<V>)
    requires f.Sib? && Tree(f)
    ensures Tree(f.kids) && Tree(f.rest) && Sentinels(f.kids) <= Sentinels(f) && Sentinels(f.rest) <= Sentinels(f)
    ensures f.node in Items(f) && Items(f.kids) <= Items(f) && Items(f.rest) <= Items(f)
    ensures Items(f) == {f.node} + Items(f.kids) + Items(f.rest)
    ensures forall n :: n in Items(f.kids) ==> n != f.node && n !in Items(f.rest)
    ensures f.node !in Items(f.rest) && (f.kids.End? ==> Items(f.kids) == {}) && (f.rest.End? ==> Items(f.rest) == {})
  {
  }

  lemma EvaluatedParts<V>(f: Forest<V>, attrs: seq<Attr<V>>, compare: Compare<V>)
    ensures Evaluated(f, attrs, compare) <==> (f.Sib? ==>
      && f.node.logicalValue == Flag(Meaning(f.node, f.kids, attrs, compare))
      && Evaluated(f.kids, attrs, compare) && Evaluated(f.rest, attrs, compare))
  {
  }

  /** Main result: every node is visited once and left with its meaning, whatever value it held before. */
  method Evaluate<V>(filter: Filter<V>, attrs: seq<Attr<V>>, compare: Compare<V>,
                     ghost f: Forest<V>, ghost place: Place<V>, ghost repr: set<Filter<V>>)
    returns (value: int)
    requires f.Sib? && f.node == filter && Tree(f) && Placed(f, place) && Items(f) + Sentinels(f) <= repr
    modifies Items(f)`logicalValue, Items(f)`visits
    ensures Evaluated(f, attrs, compare)
    ensures value == filter.logicalValue
    ensures forall n :: n in Items(f) ==> n.visits == old(n.visits) + 1
    decreases f, 1
  {
    hide Meaning, Linked, HasChildren, Placed, Items, Sentinels, Tree, Evaluated, Flag;
    Links(f, place);
    Parts(f);
    filter.visits := filter.visits + 1;
    EvaluateOthers(filter, attrs, compare, f, place, repr);
    if filter.operator == LDAP_AND || filter.operator == LDAP_OR || filter.operator == LDAP_NOT {
      value := Combine(filter, attrs, compare, f.kids);
    } else {
      value := EvaluateLeaf(filter, attrs, compare, f.kids);
    }
    filter.logicalValue := value;
    EvaluatedParts(f, attrs, compare);
  }

  /** The two recursive calls: for the children, and for the siblings that follow. */
  method EvaluateOthers<V>(filter: Filter<V>, attrs: seq<Attr<V>>, compare: Compare<V>,
                           ghost f: Forest<V>, ghost place: Place<V>, ghost repr: set<Filter<V>>)
    requires f.Sib? && f.node == filter && Tree(f) && Placed(f, place) && Items(f) + Sentinels(f) <= repr
    requires filter.children != null && filter.next != null
    modifies (Items(f.kids) + Items(f.rest))`logicalValue, (Items(f.kids) + Items(f.rest))`visits
    ensures Evaluated(f.kids, attrs, compare) && Evaluated(f.rest, attrs, compare)
    ensures forall n :: n in Items(f.kids) + Items(f.rest) ==> n.visits == old(n.visits) + 1
    decreases f, 0
  {
    hide Meaning, Linked, HasChildren, Placed, Items, Sentinels, Tree, Evaluated, Flag;
    Links(f, place);
    Parts(f);
    EvaluatedParts(f.kids, attrs, compare);
    EvaluatedParts(f.rest, attrs, compare);
    if !filter.children.IsEmpty() {
      var v := Evaluate(filter.children.next, attrs, compare, f.kids, Among(filter.children, filter.children), repr);
    }
    if !filter.next.isHead && !filter.next.IsEmpty() {
      var v := Evaluate(filter.next, attrs, compare, f.rest, Among(filter, place.head), repr);
    }
  }

  /** The loop over the children of a logical operator, with its early breaks. */
  method Combine<V>(filter: Filter<V>, attrs: seq<Attr<V>>, compare: Compare<V>, ghost kids: Forest<V>)
      returns (value: int)
    requires HasChildren(filter, kids) && Evaluated(kids, attrs, compare)
    requires filter.operator == LDAP_AND || filter.operator == LDAP_OR || filter.operator == LDAP_NOT
    ensures value == Flag(Meaning(filter, kids, attrs, compare))
  {
    value := if filter.operator == LDAP_OR then 0 else 1;
    var child: Filter<V> := filter.children.next;
    ghost var g, before: Filter<V> := kids, filter.children;
    while !child.isHead
      invariant child == First(g, filter.children) && Linked(g, before, filter.children) && Evaluated(g, attrs, compare)
      invariant value == Flag(filter.operator != LDAP_OR)
      invariant filter.operator == LDAP_AND ==> AllTrue(kids, attrs, compare) == AllTrue(g, attrs, compare)
      invariant filter.operator != LDAP_AND ==> SomeTrue(kids, attrs, compare) == SomeTrue(g, attrs, compare)
      decreases g
    {
      if child.logicalValue == 1 {
        if filter.operator == LDAP_OR { return 1; }
        if filter.operator == LDAP_NOT { return 0; }
      } else {
        if filter.operator == LDAP_AND { return 0; }
      }
      before, g := child, g.rest;
      child := child.next;
    }
  }

  /** The comparison of a leaf's operand with the first attribute of that name. */
  method EvaluateLeaf<V>(filter: Filter<V>, attrs: seq<Attr<V>>, compare: Compare<V>, ghost kids: Forest<V>)
    returns (value: int)
    requires filter.operator != LDAP_AND && filter.operator != LDAP_OR && filter.operator != LDAP_NOT
    ensures value == Flag(Meaning(filter, kids, attrs, compare))
  {
    var operator := filter.operator;
    if filter.operand.None? { return 0; }
    var operand := filter.operand.value;
    var i := 0;
    while i < |attrs|
      invariant i <= |attrs| && FirstNamed(attrs[i..], operand.name) == FirstNamed(attrs, operand.name)
    {
      var r := Fnmatch(operand.name, attrs[i].name, true);
      if r != FNM_NOMATCH {
        return if operator == EXPR_PRESENT || operator == EXPR_APPROX || compare(operand, attrs[i], operator) then 1
               else 0;
      }
      assert attrs[i..][1..] == attrs[i + 1..];
      i := i + 1;
    }
    return 0;
  }

  // ----- The meaning, without the tree -----

  /** The nodes of a sibling list, each with its children. */
  function Nodes<V>(f: Forest<V>): seq<(Filter<V>, Forest<V>)> {
    if f.End? then [] else [(f.node, f.kids)] + Nodes(f.rest)
  }

  ghost predicate AllMean<V>(ns: seq<(Filter<V>, Forest<V>)>, attrs: seq<Attr<V>>, compare: Compare<V>) {
    forall i :: 0 <= i < |ns| ==> Meaning(ns[i].0, ns[i].1, attrs, compare)
  }

  ghost predicate OneMeans<V>(ns: seq<(Filter<V>, Forest<V>)>, attrs: seq<Attr<V>>, compare: Compare<V>) {
    exists i :: 0 <= i < |ns| && Meaning(ns[i].0, ns[i].1, attrs, compare)
  }

  lemma MeanCons<V>(
      n: (Filter<V>, Forest<V>), more: seq<(Filter<V>, Forest<V>)>, attrs: seq<Attr<V>>, compare: Compare<V>)
    ensures var first := Meaning(n.0, n.1, attrs, compare);
            && (AllMean([n] + more, attrs, compare) <==> first && AllMean(more, attrs, compare))
            && (OneMeans([n] + more, attrs, compare) <==> first || OneMeans(more, attrs, compare))
  {
    hide Meaning;
    var ns := [n] + more;
    assert ns[0] == n;
    if AllMean(ns, attrs, compare) {
      forall i | 0 <= i < |more| ensures Meaning(more[i].0, more[i].1, attrs, compare) { assert ns[i + 1] == more[i]; }
    }
    if OneMeans(more, attrs, compare) {
      var i :| 0 <= i < |more| && Meaning(more[i].0, more[i].1, attrs, compare);
      assert ns[i + 1] == more[i];
    }
    if OneMeans(ns, attrs, compare) && !Meaning(n.0, n.1, attrs, compare) {
      var i :| 0 <= i < |ns| && Meaning(ns[i].0, ns[i].1, attrs, compare);
      assert ns[i] == more[i - 1];
    }
  }

  lemma {:induction false} SiblingsMean<V>(f: Forest<V>, attrs: seq<Attr<V>>, compare: Compare<V>)
    ensures AllTrue(f, attrs, compare) <==> AllMean(Nodes(f), attrs, compare)
    ensures SomeTrue(f, attrs, compare) <==> OneMeans(Nodes(f), attrs, compare)
  {
    hide Meaning;
    if f.Sib? {
      hide AllMean, OneMeans;
      SiblingsMean(f.rest, attrs, compare);
      MeanCons((f.node, f.kids), Nodes(f.rest), attrs, compare);
    }
  }

  /** Main result: "and" asks for all children, "or" for one, and "not" for none. */
  lemma OperatorsMean<V>(n: Filter<V>, kids: Forest<V>, attrs: seq<Attr<V>>, compare: Compare<V>)
    requires n.operator == LDAP_AND || n.operator == LDAP_OR || n.operator == LDAP_NOT
    ensures var ns := Nodes(kids);
            Meaning(n, kids, attrs, compare) <==>
              if n.operator == LDAP_AND then forall i :: 0 <= i < |ns| ==> Meaning(ns[i].0, ns[i].1, attrs, compare)
              else if n.operator == LDAP_OR then exists i :: 0 <= i < |ns| && Meaning(ns[i].0, ns[i].1, attrs, compare)
              else forall i :: 0 <= i < |ns| ==> !Meaning(ns[i].0, ns[i].1, attrs, compare)
  {
    SiblingsMean(kids, attrs, compare);
  }

  /** Main result: a leaf is false if no attribute has its name; else the first such attribute decides. */
  lemma LeafMeans<V>(
      n: Filter<V>, kids: Forest<V>, operand: Attr<V>, attrs: seq<Attr<V>>, compare: Compare<V>, k: nat)
    requires n.operator != LDAP_AND && n.operator != LDAP_OR && n.operator != LDAP_NOT && n.operand == Some(operand)
    requires k <= |attrs| && (k < |attrs| ==> Matches(operand.name, attrs[k].name, true))
    requires forall i :: 0 <= i < k ==> !Matches(operand.name, attrs[i].name, true)
    ensures Meaning(n, kids, attrs, compare) <==>
            k < |attrs| &&
            (n.operator == EXPR_PRESENT || n.operator == EXPR_APPROX || compare(operand, attrs[k], n.operator))
  {
    FirstNamedIs(attrs, operand.name, k);
  }

  lemma {:induction false} FirstNamedIs<V>(attrs: seq<Attr<V>>, name: seq<byte>, k: nat)
    requires k <= |attrs| && (k < |attrs| ==> Matches(name, attrs[k].name, true))
    requires forall i :: 0 <= i < k ==> !Matches(name, attrs[i].name, true)
    ensures FirstNamed(attrs, name) == if k < |attrs| then Some(attrs[k]) else None
  {
    hide Matches;
    if k > 0 { FirstNamedIs(attrs[1..], name, k - 1); }
  }

  /** A leaf without an operand is false. */
  lemma NoOperand<V>(n: Filter<V>, kids: Forest<V>, attrs: seq<Attr<V>>, compare: Compare<V>)
    requires n.operator != LDAP_AND && n.operator != LDAP_OR && n.operator != LDAP_NOT && n.operand == None
    ensures !Meaning(n, kids, attrs, compare)
  {
  }
}
