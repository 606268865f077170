/** The order in which slots and bundles are defined in the generated code: a depth-first traversal that
    visits the bases of a slot, or the parts of a bundle, first. */
module DefinitionOrder {

  /** A slot with the names of its bases, or a bundle with the names of its sub-bundles. */
  class Definition {
    const name: string
    const needs: seq<string>
    var isMarked: bool

    constructor (name: string, needs: seq<string>)
      ensures this.name == name && this.needs == needs && !isMarked
    {
      this.name, this.needs := name, needs;
      isMarked := false;
    }
  }

  type Definitions = map<string, Definition>

  /** Definitions are known by their names and need only definitions that are known and of lower rank. */
  ghost predicate Ranked(defs: Definitions, rank: map<string, nat>) {
    && defs.Keys <= rank.Keys
    && (forall n | n in defs :: defs[n].name == n)
    && (forall n, k | n in defs && 0 <= k < |defs[n].needs| :: defs[n].needs[k] in defs && rank[defs[n].needs[k]] < rank[n])
  }

  /** The definition is needed, directly or through others, by the one of the given name. */
  ghost predicate Needed(defs: Definitions, rank: map<string, nat>, n: string, m: string)
    requires Ranked(defs, rank) && n in defs
    decreases rank[n]
  {
    n == m || exists k :: 0 <= k < |defs[n].needs| && Needed(defs, rank, defs[n].needs[k], m)
  }

  /** What has been listed since is needed by the definition of the given name. */
  ghost predicate OnlyNeeded(defs: Definitions, rank: map<string, nat>, n: string, before: seq<Definition>, after: seq<Definition>)
    requires Ranked(defs, rank) && n in defs
  {
    forall e | e in after && e !in before :: Needed(defs, rank, n, e.name)
  }

  lemma {:induction false} NeededBelow(defs: Definitions, rank: map<string, nat>, n: string, m: string)
    requires Ranked(defs, rank) && n in defs && Needed(defs, rank, n, m)
    ensures m in defs && rank[m] <= rank[n]
    decreases rank[n]
  {
    if n != m {
      var k :| 0 <= k < |defs[n].needs| && Needed(defs, rank, defs[n].needs[k], m);
      NeededBelow(defs, rank, defs[n].needs[k], m);
    }
  }

  /** What has been listed for something a definition needs is needed by it, and is not the definition itself. */
  lemma {:induction false} NeededThrough(defs: Definitions, rank: map<string, nat>, n: string, k: nat, first: seq<Definition>, before: seq<Definition>, after: seq<Definition>)
    requires Ranked(defs, rank) && n in defs && k < |defs[n].needs|
    requires OnlyNeeded(defs, rank, n, first, before) && OnlyNeeded(defs, rank, defs[n].needs[k], before, after)
    ensures OnlyNeeded(defs, rank, n, first, after)
    ensures defs[n] in after ==> defs[n] in before
  {
    forall e | e in after && e !in before
      ensures Needed(defs, rank, n, e.name) && e != defs[n]
    {
      NeededBelow(defs, rank, defs[n].needs[k], e.name);
    }
  }

  /** Everything a listed definition needs is listed before it. */
  ghost predicate NeedsFirst(defs: Definitions, order: seq<Definition>) {
    forall i, n | 0 <= i < |order| && n in order[i].needs :: n in defs && defs[n] in order[..i]
  }

  ghost predicate Distinct(order: seq<Definition>) {
    forall i, j | 0 <= i < j < |order| :: order[i] != order[j]
  }

  /** A partial order of definition: nothing twice, needs first, and the listed definitions are the marked ones. */
  ghost predicate Partial(defs: Definitions, order: seq<Definition>)
    reads defs.Values
  {
    && (forall d | d in order :: d in defs.Values)
    && Distinct(order) && NeedsFirst(defs, order)
    && (forall d | d in defs.Values :: d.isMarked <==> d in order)
  }

  /** The finished order lists every definition. */
  ghost predicate Complete(defs: Definitions, order: seq<Definition>) {
    forall n | n in defs :: defs[n] in order
  }

  /** A definition can be listed once all it needs is listed. */
  lemma {:induction false} Append(defs: Definitions, order: seq<Definition>, d: Definition)
    requires Distinct(order) && NeedsFirst(defs, order) && d !in order
    requires forall n | n in d.needs :: n in defs && defs[n] in order
    ensures Distinct(order + [d]) && NeedsFirst(defs, order + [d])
  {
    var longer := order + [d];
    forall i, n | 0 <= i < |longer| && n in longer[i].needs
      ensures n in defs && defs[n] in longer[..i]
    {
      if i < |order| {
        assert longer[i] == order[i] && longer[..i] == order[..i];
      } else {
        assert longer[..i] == order;
      }
    }
  }

  /** A complete order has one entry for every definition. */
  lemma {:induction false} CompleteCounts(defs: Definitions, order: seq<Definition>)
    requires Distinct(order) && Complete(defs, order) && (forall d | d in order :: d in defs.Values)
    requires forall n | n in defs :: defs[n].name == n
    ensures |order| == |defs|
  {
    var names := set d | d in order :: d.name;
    assert names == defs.Keys;
    NamesCount(order, names);
  }

  lemma {:induction false} NamesCount(order: seq<Definition>, names: set<string>)
    requires Distinct(order) && names == set d | d in order :: d.name
    requires forall d, e | d in order && e in order && d.name == e.name :: d == e
    ensures |names| == |order|
  {
    if order == [] {
      assert names == {};
    } else {
      var rest := order[1..];
      var others := set d | d in rest :: d.name;
      assert order == [order[0]] + rest;
      assert order[0] !in rest;
      NamesCount(rest, others);
      assert names == others + {order[0].name};
      assert order[0].name !in others;
    }
  }

  class DefinitionList {
    const definitions: Definitions
    var order: seq<Definition>

    constructor (definitions: Definitions)
      ensures this.definitions == definitions && order == []
      ensures (forall d | d in definitions.Values :: !d.isMarked) ==> Valid()
    {
      this.definitions := definitions;
      order := [];
    }

    ghost predicate Valid()
      reads this, definitions.Values
    {
      Partial(definitions, order)
    }

    /** Lists a definition after everything it needs, unless it is listed already. */
    method AddToOrder(d: Definition, ghost rank: map<string, nat>)
      requires Valid() && Ranked(definitions, rank) && d.name in definitions && definitions[d.name] == d
      modifies this, definitions.Values
      ensures Valid() && old(order) <= order && d in order
      ensures old(d.isMarked) ==> order == old(order)
      ensures OnlyNeeded(definitions, rank, d.name, old(order), order)
      decreases rank[d.name]
    {
      if d.isMarked {
        return;
      }
      for k := 0 to |d.needs|
        invariant Valid() && old(order) <= order
        invariant forall j | 0 <= j < k :: definitions[d.needs[j]] in order
        invariant OnlyNeeded(definitions, rank, d.name, old(order), order) && d !in order
      {
        ghost var before := order;
        AddToOrder(definitions[d.needs[k]], rank);
        NeededThrough(definitions, rank, d.name, k, old(order), before, order);
      }
      Append(definitions, order, d);
      d.isMarked := true;
      order := order + [d];
    }

    /** Lists all definitions, whatever order the map is gone through in. */
    method ComputeOrder(ghost rank: map<string, nat>)
      requires Valid() && Ranked(definitions, rank)
      modifies this, definitions.Values
      ensures Valid() && old(order) <= order && Complete(definitions, order)
      ensures |order| == |definitions|
      ensures old(Complete(definitions, order)) ==> order == old(order)
    {
      var todo := definitions.Keys;
      while todo != {}
        invariant Valid() && old(order) <= order
        invariant todo <= definitions.Keys
        invariant forall n | n in definitions && n !in todo :: definitions[n] in order
        invariant old(Complete(definitions, order)) ==> order == old(order)
        decreases todo
      {
        var n :| n in todo;
        todo := todo - {n};
        if !definitions[n].isMarked {
          AddToOrder(definitions[n], rank);
        }
      }
      CompleteCounts(definitions, order);
    }
  }

  /** The orders of slots and of bundles are independent of each other. */
  method ComputeSlotAndBundleOrders(slots: DefinitionList, bundles: DefinitionList, ghost slotRank: map<string, nat>, ghost bundleRank: map<string, nat>)
    requires slots.Valid() && Ranked(slots.definitions, slotRank)
    requires bundles.Valid() && Ranked(bundles.definitions, bundleRank)
    requires slots != bundles && forall d | d in bundles.definitions.Values :: d !in slots.definitions.Values
    modifies slots, slots.definitions.Values, bundles, bundles.definitions.Values
    ensures slots.Valid() && Complete(slots.definitions, slots.order) && old(slots.order) <= slots.order
    ensures bundles.Valid() && Complete(bundles.definitions, bundles.order) && old(bundles.order) <= bundles.order
    ensures old(Complete(slots.definitions, slots.order)) ==> slots.order == old(slots.order)
    ensures old(Complete(bundles.definitions, bundles.order)) ==> bundles.order == old(bundles.order)
  {
    slots.ComputeOrder(slotRank);
    assert forall d | d in bundles.definitions.Values :: d.isMarked == old(d.isMarked);
    bundles.ComputeOrder(bundleRank);
  }
}
