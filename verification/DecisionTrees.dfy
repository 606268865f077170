/** The decision tree of an encoding group, the decoder emitted for it, and why the decoder is right. */
module DecisionTrees {
  import opened Words
  import opened Status
  import opened Extract
  import opened Overlays
  import opened InstructionEncodings

  // ----- the tree -----

  /** An encoding group: the bits its ancestors have dealt with, the significant bits common to its
      encodings, those among them that vary or are constant, and the subgroups by discriminator value. */
  datatype Node = Node(ignore: Word, mask: Word, varying: Word, constant: Word, discriminator: Word,
                       encs: seq<Encoding>, children: seq<Node>)

  ghost predicate AllEncodings(encs: seq<Encoding>) {
    forall e | e in encs :: e.Valid()
  }

  /** The bits significant to every encoding. */
  function Common(encs: seq<Encoding>): Word {
    if encs == [] then {}
    else set p | p in encs[0].mask && forall e | e in encs :: p in e.mask
  }

  /** The bits in which two encodings have different values. */
  function Differ(encs: seq<Encoding>): Word {
    set p, e, f | e in encs && f in encs && p in e.value && p !in f.value :: p
  }

  /** The encodings with discriminator value i. */
  function Filter(encs: seq<Encoding>, d: Word, i: nat): seq<Encoding> {
    if encs == [] then []
    else (if Index(encs[0].value, d) == i then [encs[0]] else []) + Filter(encs[1..], d, i)
  }

  ghost predicate Summarized(n: Node) {
    && n.encs != []
    && n.mask == Common(n.encs) - n.ignore
    && n.varying == Differ(n.encs)
    && n.constant == n.mask - n.varying
    && n.discriminator == n.mask - n.constant
  }

  /** Path invariant: the bits dealt with on the way to a group are significant to all its encodings,
      which have the same values there. */
  ghost predicate PathInvariant(ignore: Word, encs: seq<Encoding>) {
    && (forall e | e in encs :: ignore <= e.mask)
    && (forall e, f | e in encs && f in encs :: e.value * ignore == f.value * ignore)
  }

  /** The discriminator value that selects a subgroup. */
  function ChildIndex(n: Node, c: Node): nat
    requires c.encs != []
  {
    Index(c.encs[0].value, n.discriminator)
  }

  ghost predicate IsChild(n: Node, c: Node) {
    && c.encs != []
    && c.ignore == n.ignore + n.constant + n.discriminator
    && multiset(c.encs) == multiset(Filter(n.encs, n.discriminator, ChildIndex(n, c)))
  }

  /** Subgroups in increasing order of discriminator value, one for every value that occurs. */
  ghost predicate Partitioned(n: Node) {
    && n.discriminator != {}
    && (forall k | 0 <= k < |n.children| :: IsChild(n, n.children[k]))
    && (forall j, k | 0 <= j < k < |n.children| :: ChildIndex(n, n.children[j]) < ChildIndex(n, n.children[k]))
    && (forall e | e in n.encs :: exists k :: 0 <= k < |n.children| && ChildIndex(n, n.children[k]) == Index(e.value, n.discriminator))
  }

  /** A tree whose groups are summarised correctly and whose subgroups partition their parents. */
  ghost predicate WellFormed(n: Node) {
    && Summarized(n) && PathInvariant(n.ignore, n.encs)
    && (n.children != [] ==> Partitioned(n) && forall k | 0 <= k < |n.children| :: WellFormed(n.children[k]))
  }

  // ----- the emitted decoder -----

  /** An arm of a decoder: extractions into variables, then `if (conditions)`, and inside of it an if for each
      specialization in turn and the opcode itself at the end. */
  datatype Arm = Arm(extractions: seq<Source>, conditions: seq<Constraint>, specials: seq<Special>, result: Encoding)

  datatype Code = Code(constant: Word, constValue: Word, body: Body)

  datatype Body =
    | Table(recipe: seq<Step>, slots: seq<Option<Code>>)
    | Switch(switchRecipe: seq<Step>, cases: map<nat, seq<Arm>>)
    | IfChain(arms: seq<Arm>)

  /** kNone, the opcode of an encoding or one of its specializations, or a run that has no meaning: an undeclared
      variable or an index out of bounds. */
  datatype Outcome = NoMatch | Found(encoding: Encoding, special: Option<Special>) | Stuck

  /** The values of the extracted variables, by name. */
  type Env = map<string, Bits>

  /** The extraction code assigns its variable. */
  predicate Assigns(s: Source) {
    s.OverlaySource? ==> !OnlyZeros(s.overlay.components)
  }

  ghost predicate Readable(s: Source) {
    s.Valid() && Assigns(s)
  }

  /** Extractions assign variables in order; later ones of the same name overwrite. */
  ghost function RunExtractions(ss: seq<Source>, env: Env, w: Word): Env
    decreases ss
  {
    if ss == [] then env
    else if Readable(ss[0]) then RunExtractions(ss[1..], env[ss[0].Name() := ss[0].Value(w)], w)
    else RunExtractions(ss[1..], env - {ss[0].Name()}, w)
  }

  function OperandOf(c: Constraint, env: Env): Option<Bits> {
    match c.rhs
    case Number(v) => Some(v)
    case Read(s) => if s.Name() in env then Some(env[s.Name()]) else None
  }

  /** Some(b) when every variable read has a value. */
  function Test(c: Constraint, env: Env): Option<bool> {
    if c.lhs.Name() in env && OperandOf(c, env).Some? then
      Some(Compare(c.op, env[c.lhs.Name()], OperandOf(c, env).value))
    else None
  }

  function TestAll(cs: seq<Constraint>, env: Env): Option<bool> {
    if cs == [] then Some(true)
    else
      match (Test(cs[0], env), TestAll(cs[1..], env))
      case (Some(a), Some(b)) => Some(a && b)
      case _ => None
  }

  /** Some(s) when every variable read has a value: s is the first specialization whose conditions hold, if any. */
  function TestSpecials(ss: seq<Special>, env: Env): Option<Option<Special>> {
    if ss == [] then Some(None)
    else
      match TestAll(ss[0].conditions, env)
      case None => None
      case Some(true) => Some(Some(ss[0]))
      case Some(false) => TestSpecials(ss[1..], env)
  }

  ghost function RunArms(arms: seq<Arm>, env: Env, w: Word): Outcome
    decreases arms
  {
    if arms == [] then NoMatch
    else
      var after := RunExtractions(arms[0].extractions, env, w);
      match TestAll(arms[0].conditions, after)
      case None => Stuck
      case Some(true) =>
        (match TestSpecials(arms[0].specials, after) case None => Stuck case Some(special) => Found(arms[0].result, special))
      case Some(false) => RunArms(arms[1..], after, w)
  }

  ghost function IndexBy(recipe: seq<Step>, w: Word): nat {
    if forall s | s in recipe :: s.shift >= 0 then Num(Apply(w, recipe), 64) else 0
  }

  ghost function Run(code: Code, w: Word): Outcome {
    if w * code.constant != code.constValue then NoMatch
    else
      match code.body
      case Table(recipe, slots) =>
        var i := IndexBy(recipe, w);
        if i >= |slots| then Stuck
        else (match slots[i] case None => NoMatch case Some(next) => Run(next, w))
      case Switch(recipe, cases) =>
        var i := IndexBy(recipe, w);
        if i in cases then RunArms(cases[i], map[], w) else NoMatch
      case IfChain(arms) => RunArms(arms, map[], w)
  }

  // ----- what is emitted for a group -----

  /** An equality on bits that the path or the discriminator has dealt with need not be checked; a field
      whose variable exists already is checked nevertheless. */
  ghost predicate CanIgnore(c: Constraint, extracted: set<string>, handled: Word)
    requires c.Valid()
  {
    match c.lhs
    case FieldSource(f) => f.name !in extracted && c.lhs.Mask() <= handled
    case OverlaySource(_) => c.lhs.Mask() <= handled
  }

  ghost function Kept(cs: seq<Constraint>, extracted: set<string>, handled: Word): seq<Constraint>
    requires AllValid(cs)
  {
    if cs == [] then []
    else (if CanIgnore(cs[0], extracted, handled) then [] else [cs[0]]) + Kept(cs[1..], extracted, handled)
  }

  function ConstraintSources(c: Constraint): seq<Source> {
    [c.lhs] + match c.rhs case Number(_) => [] case Read(s) => [s]
  }

  function Sources(cs: seq<Constraint>): seq<Source> {
    if cs == [] then [] else ConstraintSources(cs[0]) + Sources(cs[1..])
  }

  function SpecialSources(ss: seq<Special>): seq<Source> {
    if ss == [] then [] else Sources(ss[0].conditions) + SpecialSources(ss[1..])
  }

  function Names(ss: seq<Source>): set<string> {
    if ss == [] then {} else {ss[0].Name()} + Names(ss[1..])
  }

  /** The sources whose variable does not exist yet, each once. */
  function Fresh(ss: seq<Source>, extracted: set<string>): seq<Source>
    decreases ss
  {
    if ss == [] then []
    else if ss[0].Name() in extracted then Fresh(ss[1..], extracted)
    else [ss[0]] + Fresh(ss[1..], extracted + {ss[0].Name()})
  }

  /** The conditions of the arm of an encoding. */
  ghost function Conditions(e: Encoding, extracted: set<string>, handled: Word): seq<Constraint>
    requires e.Valid()
  {
    Kept(e.equal, extracted, handled) + e.extracted + e.other
  }

  /** The sources that the arm of an encoding reads, those of its specializations last. */
  ghost function ReadSources(e: Encoding, extracted: set<string>, handled: Word): seq<Source>
    requires e.Valid()
  {
    Sources(Conditions(e, extracted, handled)) + SpecialSources(e.specials)
  }

  ghost function ArmFor(e: Encoding, extracted: set<string>, handled: Word): Arm
    requires e.Valid()
  {
    Arm(Fresh(ReadSources(e, extracted, handled), extracted), Conditions(e, extracted, handled), e.specials, e)
  }

  ghost function ArmsFor(encs: seq<Encoding>, extracted: set<string>, handled: Word): seq<Arm>
    requires AllEncodings(encs)
    decreases encs
  {
    if encs == [] then []
    else
      [ArmFor(encs[0], extracted, handled)] +
      ArmsFor(encs[1..], extracted + Names(ReadSources(encs[0], extracted, handled)), handled)
  }

  /** The code emitted for a tree. */
  ghost predicate IsCodeFor(code: Code, n: Node)
    requires WellFormed(n) && AllEncodings(n.encs)
    decreases n
  {
    && code.constant == n.constant
    && code.constValue == n.encs[0].value * n.constant
    && var handled: Word := n.ignore + n.discriminator;
       if n.children != [] then
         && code.body.Table?
         && Extracts(code.body.recipe, n.discriminator)
         && |code.body.slots| == Pow2(Popcount(n.discriminator))
         && (forall i | 0 <= i < |code.body.slots| :: code.body.slots[i].Some? ==> exists k :: 0 <= k < |n.children| && ChildIndex(n, n.children[k]) == i)
         && (forall k | 0 <= k < |n.children| ::
               && ChildIndex(n, n.children[k]) < |code.body.slots|
               && code.body.slots[ChildIndex(n, n.children[k])].Some?
               && AllEncodings(n.children[k].encs)
               && IsCodeFor(code.body.slots[ChildIndex(n, n.children[k])].value, n.children[k]))
       else if n.discriminator == {} then
         code.body == IfChain(ArmsFor(n.encs, {}, handled))
       else
         && code.body.Switch?
         && Extracts(code.body.switchRecipe, n.discriminator)
         && (forall i :: i in code.body.cases <==> Filter(n.encs, n.discriminator, i) != [])
         && (forall i | i in code.body.cases ::
               && AllEncodings(Filter(n.encs, n.discriminator, i))
               && code.body.cases[i] == ArmsFor(Filter(n.encs, n.discriminator, i), {}, handled))
  }

  // ----- reference semantics -----

  /** The first encoding all of whose constraints hold, with the first such specialization of it. */
  ghost function LinearScan(encs: seq<Encoding>, w: Word): Outcome
    requires AllEncodings(encs)
  {
    if encs == [] then NoMatch
    else if encs[0].Matches(w) then Found(encs[0], Chosen(encs[0].specials, w))
    else LinearScan(encs[1..], w)
  }

  /** The encodings in the order of the leaves of the tree. */
  function TreeOrder(n: Node): seq<Encoding>
    decreases n, 1
  {
    if n.children == [] then n.encs else TreeOrders(n.children)
  }

  function TreeOrders(ns: seq<Node>): seq<Encoding>
    decreases ns, 0
  {
    if ns == [] then [] else TreeOrder(ns[0]) + TreeOrders(ns[1..])
  }

  // ----- the shape of the tree -----

  /** Splitting the group separates its encodings into groups one of which still varies in two or more bits. */
  ghost predicate WorthSplitting(n: Node) {
    && n.discriminator != {}
    && exists e :: e in n.encs && Popcount(Differ(Filter(n.encs, n.discriminator, Index(e.value, n.discriminator)))) >= 2
  }

  /** A subgroup is split exactly when it varies outside its common bits and splitting pays off. */
  ghost predicate Settled(n: Node) {
    && (n.children == [] <==> n.varying <= n.mask || !WorthSplitting(n))
    && forall k | 0 <= k < |n.children| :: Settled(n.children[k])
  }

  /** A top-level group is split exactly when it has a discriminator. */
  ghost predicate Split(n: Node) {
    && (n.children == [] <==> n.discriminator == {})
    && forall k | 0 <= k < |n.children| :: Settled(n.children[k])
  }
}
