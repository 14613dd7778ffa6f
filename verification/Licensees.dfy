/** The Licensees field of an assertion: its abstract syntax, and the value it has once every
    principal has one. Values are the indices 0..top of the query's ordered return values. */
module Licensees {

  datatype Expr =
    | Principal(name: string)
    | And(left: Expr, right: Expr)
    | Or(left: Expr, right: Expr)
    | KOf(k: int, names: seq<string>)

  /** A field may be absent, present but empty, or hold an expression. */
  datatype Field = Missing | Empty | Given(expr: Expr)

  type Leaves = string -> int

  ghost predicate Ranged(leaf: Leaves, top: nat) {
    forall s :: 0 <= leaf(s) <= top
  }

  // ----- the k-th best value -----

  function CountAtLeast(vals: seq<int>, x: int): nat {
    if vals == [] then 0 else (if vals[0] >= x then 1 else 0) + CountAtLeast(vals[1..], x)
  }

  /** The largest value up to `x` that at least `k` of the values reach; 0 if there is none. */
  function KthUpTo(vals: seq<int>, k: int, x: nat): (r: nat)
    ensures r <= x
  {
    if x == 0 || CountAtLeast(vals, x) >= k then x else KthUpTo(vals, k, x - 1)
  }

  function LeafValues(names: seq<string>, leaf: Leaves): (vals: seq<int>)
    ensures |vals| == |names| && forall i :: 0 <= i < |names| ==> vals[i] == leaf(names[i])
  {
    seq(|names|, i requires 0 <= i < |names| => leaf(names[i]))
  }

  lemma {:induction false} CountBounds(vals: seq<int>, x: int)
    ensures CountAtLeast(vals, x) <= |vals|
    ensures (forall i :: 0 <= i < |vals| ==> vals[i] >= x) ==> CountAtLeast(vals, x) == |vals|
    ensures CountAtLeast(vals, x + 1) <= CountAtLeast(vals, x)
    ensures CountAtLeast(vals, x) > CountAtLeast(vals, x + 1) ==> x in vals
    ensures (forall i :: 0 <= i < |vals| ==> vals[i] < x) ==> CountAtLeast(vals, x) == 0
  {
    if vals != [] {
      CountBounds(vals[1..], x);
      assert vals == [vals[0]] + vals[1..];
    }
  }

  lemma {:induction false} KthUpToSpec(vals: seq<int>, k: int, x: nat)
    requires CountAtLeast(vals, x + 1) < k <= |vals|
    requires forall i :: 0 <= i < |vals| ==> vals[i] >= 0
    ensures var r := KthUpTo(vals, k, x);
      r in vals && CountAtLeast(vals, r + 1) < k <= CountAtLeast(vals, r)
  {
    CountBounds(vals, x);
    if x > 0 && CountAtLeast(vals, x) < k {
      KthUpToSpec(vals, k, x - 1);
    }
  }

  /** `k-of` yields the k-th largest element: it occurs among the values, at least k of them
      reach it and fewer than k exceed it. */
  lemma KthIsKthLargest(vals: seq<int>, k: int, top: nat)
    requires 1 <= k <= |vals| && forall i :: 0 <= i < |vals| ==> 0 <= vals[i] <= top
    ensures var r := KthUpTo(vals, k, top);
      r in vals && CountAtLeast(vals, r + 1) < k <= CountAtLeast(vals, r)
  {
    CountBounds(vals, top + 1);
    KthUpToSpec(vals, k, top);
  }

  lemma {:induction false} CountMonotone(vals: seq<int>, vals': seq<int>, x: int)
    requires |vals| == |vals'| && forall i :: 0 <= i < |vals| ==> vals[i] <= vals'[i]
    ensures CountAtLeast(vals, x) <= CountAtLeast(vals', x)
  {
    if vals != [] {
      CountMonotone(vals[1..], vals'[1..], x);
    }
  }

  lemma {:induction false} KthMonotone(vals: seq<int>, vals': seq<int>, k: int, x: nat)
    requires |vals| == |vals'| && forall i :: 0 <= i < |vals| ==> vals[i] <= vals'[i]
    ensures KthUpTo(vals, k, x) <= KthUpTo(vals', k, x)
  {
    CountMonotone(vals, vals', x);
    if x > 0 && CountAtLeast(vals', x) < k {
      KthMonotone(vals, vals', k, x - 1);
    }
  }

  // ----- the value of an expression -----

  function Min(x: int, y: int): int { if x < y then x else y }

  function Max(x: int, y: int): int { if x < y then y else x }

  /** The plain value: minimum for `&&`, maximum for `||`, the k-th best for `k-of`. */
  function Value(e: Expr, leaf: Leaves, top: nat): int {
    match e
    case Principal(s) => leaf(s)
    case And(l, r) => Min(Value(l, leaf, top), Value(r, leaf, top))
    case Or(l, r) => Max(Value(l, leaf, top), Value(r, leaf, top))
    case KOf(k, names) => KthUpTo(LeafValues(names, leaf), k, top)
  }

  /** No `k-of` asks for more principals than it lists. */
  predicate WellFormed(e: Expr) {
    match e
    case Principal(_) => true
    case And(l, r) => WellFormed(l) && WellFormed(r)
    case Or(l, r) => WellFormed(l) && WellFormed(r)
    case KOf(k, names) => |names| >= k
  }

  lemma ValueRange(e: Expr, leaf: Leaves, top: nat)
    requires Ranged(leaf, top)
    ensures 0 <= Value(e, leaf, top) <= top
  {
  }

  /** Raising principals can only raise the expression. */
  lemma {:induction false} ValueMonotone(e: Expr, leaf: Leaves, leaf': Leaves, top: nat)
    requires forall s :: leaf(s) <= leaf'(s)
    ensures Value(e, leaf, top) <= Value(e, leaf', top)
  {
    match e
    case Principal(_) =>
    case And(l, r) =>
      ValueMonotone(l, leaf, leaf', top);
      ValueMonotone(r, leaf, leaf', top);
    case Or(l, r) =>
      ValueMonotone(l, leaf, leaf', top);
      ValueMonotone(r, leaf, leaf', top);
    case KOf(k, names) =>
      KthMonotone(LeafValues(names, leaf), LeafValues(names, leaf'), k, top);
  }

  lemma {:induction false} CountCapped(vals: seq<int>, vals': seq<int>, cap: int, x: int)
    requires |vals| == |vals'| && x > cap && forall i :: 0 <= i < |vals| ==> vals'[i] <= Max(vals[i], cap)
    ensures CountAtLeast(vals', x) <= CountAtLeast(vals, x)
  {
    if vals != [] {
      CountCapped(vals[1..], vals'[1..], cap, x);
    }
  }

  lemma {:induction false} KthCapped(vals: seq<int>, vals': seq<int>, k: int, cap: nat, x: nat)
    requires |vals| == |vals'| && forall i :: 0 <= i < |vals| ==> vals'[i] <= Max(vals[i], cap)
    ensures KthUpTo(vals', k, x) <= Max(KthUpTo(vals, k, x), cap)
  {
    if x > cap {
      CountCapped(vals, vals', cap, x);
    }
    if x > 0 {
      KthCapped(vals, vals', k, cap, x - 1);
    }
  }

  /** Raising principals to at most `cap` raises the expression to at most `cap`. */
  lemma {:induction false} ValueCapped(e: Expr, leaf: Leaves, leaf': Leaves, top: nat, cap: nat)
    requires forall s :: leaf'(s) <= Max(leaf(s), cap)
    ensures Value(e, leaf', top) <= Max(Value(e, leaf, top), cap)
  {
    match e
    case Principal(_) =>
    case And(l, r) =>
      ValueCapped(l, leaf, leaf', top, cap);
      ValueCapped(r, leaf, leaf', top, cap);
    case Or(l, r) =>
      ValueCapped(l, leaf, leaf', top, cap);
      ValueCapped(r, leaf, leaf', top, cap);
    case KOf(k, names) =>
      KthCapped(LeafValues(names, leaf), LeafValues(names, leaf'), k, cap, top);
  }

  // ----- the principals of an expression -----

  /** The names in the order the parser meets them. */
  function Names(e: Expr): seq<string> {
    match e
    case Principal(s) => [s]
    case And(l, r) => Names(l) + Names(r)
    case Or(l, r) => Names(l) + Names(r)
    case KOf(_, names) => names
  }

  /** The value depends on the principals that occur in the expression only. */
  lemma {:induction false} ValueLocal(e: Expr, leaf: Leaves, leaf': Leaves, top: nat)
    requires forall s :: s in Names(e) ==> leaf(s) == leaf'(s)
    ensures Value(e, leaf, top) == Value(e, leaf', top)
  {
    match e
    case Principal(_) =>
    case And(l, r) =>
      ValueLocal(l, leaf, leaf', top);
      ValueLocal(r, leaf, leaf', top);
    case Or(l, r) =>
      ValueLocal(l, leaf, leaf', top);
      ValueLocal(r, leaf, leaf', top);
    case KOf(k, names) =>
      forall i | 0 <= i < |names| ensures leaf(names[i]) == leaf'(names[i]) {
        assert names[i] in names;
      }
      assert LeafValues(names, leaf) == LeafValues(names, leaf');
  }

  /** What is left of the value when the parser's short-circuit flag is set before the
      expression: principals then count 0, until an inner `&&` or `||` ends and clears the
      flag. The second component is the flag afterwards. */
  function ShortCircuit(e: Expr, leaf: Leaves, top: nat, flag: bool): (int, bool) {
    match e
    case Principal(s) => (if flag then 0 else leaf(s), flag)
    case KOf(k, names) => (if flag then 0 else KthUpTo(LeafValues(names, leaf), k, top), flag)
    case And(l, r) =>
      var (x, f) := ShortCircuit(l, leaf, top, flag);
      var (y, _) := ShortCircuit(r, leaf, top, f || x == 0);
      (Min(x, y), false)
    case Or(l, r) =>
      var (x, f) := ShortCircuit(l, leaf, top, flag);
      var (y, _) := ShortCircuit(r, leaf, top, f || x == top);
      (Max(x, y), false)
  }

  lemma ConjunctionStep(e: Expr, leaf: Leaves, top: nat, flag: bool)
    requires e.And?
    ensures WellFormed(e) <==> WellFormed(e.left) && WellFormed(e.right)
    ensures var (x, f) := ShortCircuit(e.left, leaf, top, flag);
      ShortCircuit(e, leaf, top, flag) == (Min(x, ShortCircuit(e.right, leaf, top, f || x == 0).0), false)
  {
  }

  lemma DisjunctionStep(e: Expr, leaf: Leaves, top: nat, flag: bool)
    requires e.Or?
    ensures WellFormed(e) <==> WellFormed(e.left) && WellFormed(e.right)
    ensures var (x, f) := ShortCircuit(e.left, leaf, top, flag);
      ShortCircuit(e, leaf, top, flag) == (Max(x, ShortCircuit(e.right, leaf, top, f || x == top).0), false)
  {
  }

  /** Started with the flag clear, short-circuit evaluation gives exactly the plain value;
      started with it set, something between 0 and the plain value. */
  lemma {:induction false} ShortCircuitCorrect(e: Expr, leaf: Leaves, top: nat, flag: bool)
    requires Ranged(leaf, top)
    ensures var (v, f) := ShortCircuit(e, leaf, top, flag);
      && 0 <= v <= Value(e, leaf, top) <= top
      && (!flag ==> v == Value(e, leaf, top) && !f)
  {
    ValueRange(e, leaf, top);
    match e
    case Principal(_) =>
    case KOf(_, _) =>
    case And(l, r) =>
      var (x, f) := ShortCircuit(l, leaf, top, flag);
      ShortCircuitCorrect(l, leaf, top, flag);
      ShortCircuitCorrect(r, leaf, top, f || x == 0);
    case Or(l, r) =>
      var (x, f) := ShortCircuit(l, leaf, top, flag);
      ShortCircuitCorrect(l, leaf, top, flag);
      ShortCircuitCorrect(r, leaf, top, f || x == top);
  }

  // ----- counting by value -----

  function CountEqual(vals: seq<int>, x: int): nat {
    if vals == [] then 0 else (if vals[0] == x then 1 else 0) + CountEqual(vals[1..], x)
  }

  lemma {:induction false} CountStep(vals: seq<int>, x: int)
    ensures CountAtLeast(vals, x) == CountAtLeast(vals, x + 1) + CountEqual(vals, x)
  {
    if vals != [] {
      CountStep(vals[1..], x);
    }
  }

  /** `get_kth`: walk the counts down from the best value. */
  method GetKth(counts: array<nat>, k: int, ghost vals: seq<int>) returns (r: nat)
    requires counts.Length > 0
    requires forall x :: 0 <= x < counts.Length ==> counts[x] == CountEqual(vals, x)
    requires forall i :: 0 <= i < |vals| ==> vals[i] < counts.Length
    ensures r == KthUpTo(vals, k, counts.Length - 1)
  {
    var rest := k;
    var i := counts.Length - 1;
    CountBounds(vals, counts.Length);
    while i >= 0
      invariant -1 <= i < counts.Length
      invariant rest == k - CountAtLeast(vals, i + 1)
      invariant KthUpTo(vals, k, counts.Length - 1) == if i >= 0 then KthUpTo(vals, k, i) else 0
    {
      CountStep(vals, i);
      rest := rest - counts[i];
      if rest <= 0 {
        return i;
      }
      i := i - 1;
    }
    r := 0;
  }
}
