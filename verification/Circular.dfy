/** The circular cursor search used four times by the stores: for a free tunnel id and a free tunnel row
    (tunnel.c), and for a free UE id and a free UE row (ue_ctx.c). Each starts one past a persistent
    cursor, moves up modulo the table size, and stops when it is back at the cursor. */
module Circular {
  import opened Options

  /** The position after i; NextIsModulo relates it to the source's `(i + 1) % n`. */
  function Next(i: nat, n: nat): (j: nat)
    requires i < n
    ensures j < n
  {
    if i + 1 == n then 0 else i + 1
  }

  lemma NextIsModulo(i: nat, n: nat)
    requires i < n
    ensures Next(i, n) == (i + 1) % n
  {
    if i + 1 < n {
      assert (i + 1) / n == 0;
    }
  }

  /** How many upward steps lead from a to b. */
  function Gap(a: nat, b: nat, n: nat): (g: nat)
    requires a < n && b < n
    ensures g < n
  {
    if a <= b then b - a else b + n - a
  }

  /** The rest of a search that has reached position i. */
  function SearchFrom(i: nat, cursor: nat, n: nat, taken: set<nat>): (r: Option<nat>)
    requires i < n && cursor < n
    ensures r.Some? ==> r.value < n
    decreases Gap(i, cursor, n)
  {
    if i == cursor then None
    else if i !in taken then Some(i)
    else SearchFrom(Next(i, n), cursor, n, taken)
  }

  /** The whole search: the position found, if any. */
  function Search(cursor: nat, n: nat, taken: set<nat>): (r: Option<nat>)
    requires cursor < n
    ensures r.Some? ==> r.value < n
  {
    SearchFrom(Next(cursor, n), cursor, n, taken)
  }

  /** k is free, is not the cursor, and everything passed on the way to it is taken. */
  ghost predicate IsFirstFree(k: nat, cursor: nat, n: nat, taken: set<nat>)
    requires cursor < n
  {
    k < n && k != cursor && k !in taken &&
    forall j: nat :: j < n && 0 < Gap(cursor, j, n) < Gap(cursor, k, n) ==> j in taken
  }

  /** Everything but the cursor is taken; the cursor's own position is never inspected. */
  ghost predicate AllButCursor(cursor: nat, n: nat, taken: set<nat>) {
    forall j: nat :: j < n && j != cursor ==> j in taken
  }

  lemma {:induction false} SearchFromIsFirst(i: nat, cursor: nat, n: nat, taken: set<nat>)
    requires i < n && cursor < n
    requires forall j: nat :: j < n && 0 < Gap(cursor, j, n) < (if i == cursor then n else Gap(cursor, i, n)) ==> j in taken
    ensures match SearchFrom(i, cursor, n, taken)
            case Some(k) => IsFirstFree(k, cursor, n, taken)
            case None => AllButCursor(cursor, n, taken)
    decreases Gap(i, cursor, n)
  {
    if i != cursor && i in taken {
      SearchFromIsFirst(Next(i, n), cursor, n, taken);
    }
  }

  /** The search is first-fit, and complete but for the cursor's own position. */
  lemma SearchIsFirstFit(cursor: nat, n: nat, taken: set<nat>)
    requires cursor < n
    ensures forall k: nat :: Search(cursor, n, taken) == Some(k) <==> IsFirstFree(k, cursor, n, taken)
    ensures Search(cursor, n, taken) == None <==> AllButCursor(cursor, n, taken)
  {
    SearchFromIsFirst(Next(cursor, n), cursor, n, taken);
    forall k: nat | IsFirstFree(k, cursor, n, taken)
      ensures Search(cursor, n, taken) == Some(k)
    {
      assert !AllButCursor(cursor, n, taken);
      var r := Search(cursor, n, taken).value;
      assert Gap(cursor, r, n) == Gap(cursor, k, n);
    }
  }
}
