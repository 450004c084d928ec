/**
 * Timetable construction as a constraint-satisfaction problem (CSP_Timetable):
 * every time slot gets one subject. Two search strategies share the solver
 * state (the assignment map, the insertion-ordered set of unassigned slots and
 * the backtrack counter): plain chronological backtracking, and backtracking
 * with forward checking over per-slot domain lists.
 *
 * `Slot` has no equals/hashCode of its own in the Java code, so slots are
 * compared by identity in maps and sets; here they are objects, which Dafny
 * compares by reference. Only `isConsistent` looks at their (day, period).
 */
module Timetable {
  import opened Wrappers

  /** The candidate subjects, in the order of the `subjects` array. */
  const Subjects: seq<string> := ["Math", "Physics", "Chemistry", "CS", "English"]

  /** A time slot; its day and period never change after construction. */
  class Slot {
    const day: int
    const period: int

    constructor (d: int, p: int)
      ensures day == d && period == p
    {
      day := d;
      period := p;
    }
  }

  predicate SameTime(a: Slot, b: Slot) {
    a.day == b.day && a.period == b.period
  }

  /** An ArrayList<String>: the domain of one slot in the forward-checking search. */
  class SubjectList {
    var items: seq<string>

    constructor (xs: seq<string>)
      ensures items == xs
    {
      items := xs;
    }

    /** ArrayList.remove(Object): drops the first occurrence of `x`. */
    method Remove(x: string)
      modifies this
      ensures items == RemoveFirst(old(items), x)
    {
      items := RemoveFirst(items, x);
    }
  }

  // ----- sequences as sets and lists -----

  predicate Distinct<T(==)>(s: seq<T>) {
    forall i, j :: 0 <= i < j < |s| ==> s[i] != s[j]
  }

  ghost function Elements<T>(s: seq<T>): set<T> {
    set x | x in s
  }

  lemma {:induction false} DistinctSize<T>(s: seq<T>)
    requires Distinct(s)
    ensures |Elements(s)| == |s|
  {
    if s != [] {
      DistinctSize(s[1..]);
      assert Elements(s) == Elements(s[1..]) + {s[0]};
      assert s[0] !in s[1..];
    }
  }

  /** A sequence without duplicates stays so when an absent element is put in front. */
  lemma DistinctCons<T>(a: T, s: seq<T>)
    requires Distinct(s) && a !in s
    ensures Distinct([a] + s)
  {
    var t := [a] + s;
    forall i, j | 0 <= i < j < |t| ensures t[i] != t[j] {
      assert t[j] == s[j - 1];
      if i > 0 { assert t[i] == s[i - 1]; }
    }
  }

  /**
   * LinkedHashSet.remove: the slots other than `x`, in the same order. It
   * removes exactly `x` and keeps the set free of duplicates.
   */
  function Without(s: seq<Slot>, x: Slot): (r: seq<Slot>)
    ensures Elements(r) == Elements(s) - {x}
    ensures Distinct(s) ==> Distinct(r)
    ensures x !in s ==> r == s
    ensures x in s ==> |r| < |s|
  {
    if s == [] then []
    else
      var r := Without(s[1..], x);
      assert Elements(s) == {s[0]} + Elements(s[1..]);
      assert Distinct(s) ==> Distinct(s[1..]) && s[0] !in s[1..];
      if s[0] == x then r
      else
        assert s == [s[0]] + s[1..];
        assert Elements([s[0]] + r) == {s[0]} + Elements(r);
        assert Distinct(s) ==> Distinct([s[0]] + r) by {
          if Distinct(s) { DistinctCons(s[0], r); }
        }
        [s[0]] + r
  }

  /** LinkedHashSet.add: appends `x` unless it is already present. */
  function Add(s: seq<Slot>, x: Slot): (r: seq<Slot>)
    ensures Elements(r) == Elements(s) + {x}
    ensures Distinct(s) ==> Distinct(r)
  {
    if x in s then s else s + [x]
  }

  /** List.remove(Object): drops the first occurrence of `x`, if any. */
  function RemoveFirst(xs: seq<string>, x: string): (r: seq<string>)
    ensures |r| == if x in xs then |xs| - 1 else |xs|
  {
    if xs == [] then []
    else if xs[0] == x then xs[1..]
    else [xs[0]] + RemoveFirst(xs[1..], x)
  }

  /** Removing the first occurrence takes exactly one copy of `x` out of the list, if it holds one. */
  lemma {:induction false} RemoveFirstCount(xs: seq<string>, x: string)
    ensures multiset(RemoveFirst(xs, x)) == multiset(xs) - multiset{x}
    ensures x !in xs ==> RemoveFirst(xs, x) == xs
  {
    if xs != [] {
      assert xs == [xs[0]] + xs[1..];
      if xs[0] != x {
        RemoveFirstCount(xs[1..], x);
      }
    }
  }

  /** On a list without duplicates, removing the first occurrence removes every occurrence. */
  lemma {:induction false} RemoveFirstDistinct(xs: seq<string>, x: string)
    requires Distinct(xs)
    ensures Distinct(RemoveFirst(xs, x)) && x !in RemoveFirst(xs, x)
  {
    if xs != [] {
      assert xs[0] !in xs[1..];
      assert Distinct(xs[1..]);
      if xs[0] != x {
        RemoveFirstDistinct(xs[1..], x);
        var r := RemoveFirst(xs[1..], x);
        RemoveFirstCount(xs[1..], x);
        assert multiset(xs[1..])[xs[0]] == 0;
        assert multiset(r)[xs[0]] == 0;
        DistinctCons(xs[0], r);
      } else {
        assert multiset(xs[1..])[x] == 0;
      }
    }
  }

  // ----- variable and value selection, consistency -----

  /**
   * selectUnassignedVariable: the first slot in insertion order; removing it
   * leaves the rest of the set in its order.
   */
  function SelectUnassignedVariable(unassigned: seq<Slot>): (v: Slot)
    requires |unassigned| > 0 && Distinct(unassigned)
    ensures v in unassigned && Without(unassigned, v) == unassigned[1..]
  {
    assert unassigned[0] !in unassigned[1..];
    unassigned[0]
  }

  /** orderDomainValues: the subjects in some order (Collections.shuffle is not modelled further). */
  method OrderDomainValues() returns (vals: seq<string>)
    ensures multiset(vals) == multiset(Subjects)
  {
    vals :| multiset(vals) == multiset(Subjects);
  }

  /**
   * isConsistent: the slot may be given a subject when no assigned slot has
   * the same day and period. The subject is not looked at.
   */
  method IsConsistent(slot: Slot, subject: string, assignment: map<Slot, string>) returns (ok: bool)
    ensures ok <==> forall s :: s in assignment ==> !SameTime(s, slot)
  {
    var keys := assignment.Keys;
    while keys != {}
      invariant keys <= assignment.Keys
      invariant forall s :: s in assignment && s !in keys ==> !SameTime(s, slot)
      decreases keys
    {
      var s :| s in keys;
      if s.day == slot.day && s.period == slot.period {
        return false;
      }
      keys := keys - {s};
    }
    return true;
  }

  // ----- forward checking -----

  /** The list forwardCheck leaves for slot `s` after assigning `value` to `v`. */
  function Pruned(v: Slot, value: string, s: Slot, items: seq<string>): seq<string> {
    if s == v then items else RemoveFirst(items, value)
  }

  /** No two slots share a domain list object. */
  ghost predicate Unshared(domains: map<Slot, SubjectList>) {
    forall s, t :: s in domains && t in domains && s != t ==> domains[s] != domains[t]
  }

  /** No domain holds a subject twice. */
  ghost predicate AllDistinct(doms: map<Slot, seq<string>>) {
    forall s :: s in doms ==> Distinct(doms[s])
  }

  /**
   * deepCopy: a map with the same keys whose lists are new objects with the
   * same contents, one per key.
   */
  method DeepCopy(src: map<Slot, SubjectList>) returns (copy: map<Slot, SubjectList>)
    ensures copy.Keys == src.Keys && Unshared(copy)
    ensures forall s :: s in copy ==> fresh(copy[s]) && copy[s].items == src[s].items
  {
    copy := map[];
    var keys := src.Keys;
    while keys != {}
      invariant keys <= src.Keys && copy.Keys == src.Keys - keys && Unshared(copy)
      invariant forall s :: s in copy ==> fresh(copy[s]) && copy[s].items == src[s].items
      decreases keys
    {
      var s :| s in keys;
      var list := new SubjectList(src[s].items);
      copy := copy[s := list];
      keys := keys - {s};
    }
  }

  /**
   * forwardCheck: removes the first occurrence of `value` from the list of
   * every slot other than `v` (assigned slots included), in the map's
   * arbitrary key order, and fails (`null`) as soon as a list becomes empty.
   * Failure happens exactly when some slot other than `v` is left with an
   * empty list; on success every other list lost that occurrence and `v`'s
   * list is untouched. On failure each list is either untouched or pruned.
   */
  method ForwardCheck(v: Slot, value: string, domains: map<Slot, SubjectList>)
    returns (r: Option<map<Slot, SubjectList>>)
    requires Unshared(domains)
    modifies domains.Values
    ensures r.Some? <==> forall s :: s in domains && s != v ==> RemoveFirst(old(domains[s].items), value) != []
    ensures r.Some? ==> r.value == domains
    ensures r.Some? ==> forall s :: s in domains ==>
      domains[s].items == Pruned(v, value, s, old(domains[s].items))
    ensures r.None? ==> forall s :: s in domains ==>
      domains[s].items == old(domains[s].items) || domains[s].items == Pruned(v, value, s, old(domains[s].items))
  {
    ghost var orig := map t | t in domains :: domains[t].items;
    var keys := domains.Keys;
    while keys != {}
      invariant keys <= domains.Keys
      invariant forall t :: t in keys ==> domains[t].items == orig[t]
      invariant forall t :: t in domains && t !in keys ==> domains[t].items == Pruned(v, value, t, orig[t])
      invariant forall t :: t in domains && t !in keys && t != v ==> domains[t].items != []
      decreases keys
    {
      var s :| s in keys;
      if s != v {
        domains[s].Remove(value);
        if domains[s].items == [] {
          assert s in domains && s != v && RemoveFirst(orig[s], value) == [];
          return None;
        }
      }
      keys := keys - {s};
    }
    return Some(domains);
  }

  // ----- the solver -----

  /** `after` keeps every entry of `before` and adds exactly the slots of `pending`. */
  ghost predicate Completes(before: map<Slot, string>, after: map<Slot, string>, pending: set<Slot>) {
    after.Keys == before.Keys + pending &&
    forall s :: s in before ==> after[s] == before[s]
  }

  /** No slot of `pending` shares its day and period with another assigned slot. */
  ghost predicate NoClash(assignment: map<Slot, string>, pending: set<Slot>) {
    forall s, t :: s in pending && t in assignment && s != t ==> !SameTime(s, t)
  }

  /** The slots of `pending` have pairwise different subjects. */
  ghost predicate InjectiveOn(assignment: map<Slot, string>, pending: set<Slot>) {
    forall s, t :: s in pending && t in pending && s != t && s in assignment && t in assignment ==>
      assignment[s] != assignment[t]
  }

  /** Pending slots have pairwise different times, and none shares the time of an assigned slot. */
  ghost predicate TimesFree(pending: seq<Slot>, assignment: map<Slot, string>) {
    (forall i, j :: 0 <= i < j < |pending| ==> !SameTime(pending[i], pending[j])) &&
    (forall i, s :: 0 <= i < |pending| && s in assignment ==> !SameTime(pending[i], s))
  }

  /** Assigning the first pending slot keeps the rest free of clashes. */
  lemma TimesFreeStep(pending: seq<Slot>, assignment: map<Slot, string>, value: string)
    requires |pending| > 0 && TimesFree(pending, assignment)
    ensures TimesFree(pending[1..], assignment[pending[0] := value])
  {
    var rest := pending[1..];
    forall i, s | 0 <= i < |rest| && s in assignment[pending[0] := value]
      ensures !SameTime(rest[i], s)
    {
      assert rest[i] == pending[i + 1];
    }
  }

  /** More slots with pairwise different values than there are values is impossible. */
  lemma {:induction false} Pigeonhole(assignment: map<Slot, string>, pending: set<Slot>, vals: set<string>)
    requires forall s :: s in pending ==> s in assignment && assignment[s] in vals
    requires InjectiveOn(assignment, pending)
    ensures |pending| <= |vals|
    decreases pending
  {
    if pending != {} {
      var s :| s in pending;
      Pigeonhole(assignment, pending - {s}, vals - {assignment[s]});
    }
  }

  /** The domains forwardCheck leaves after assigning `val` to `v`. */
  function PrunedAll(v: Slot, val: string, doms: map<Slot, seq<string>>): map<Slot, seq<string>> {
    map s | s in doms :: Pruned(v, val, s, doms[s])
  }

  /** Pruning duplicate-free lists keeps them duplicate-free. */
  lemma PrunedDistinct(doms: map<Slot, seq<string>>, v: Slot, val: string)
    requires AllDistinct(doms)
    ensures AllDistinct(PrunedAll(v, val, doms))
  {
    var pruned := PrunedAll(v, val, doms);
    forall s | s in pruned ensures Distinct(pruned[s]) {
      if s != v { RemoveFirstDistinct(doms[s], val); }
    }
  }

  /**
   * The first half of a backtrackForward step: a deep copy of the domains
   * with `val` pruned from every list but `v`'s; `None` when a list ran empty.
   * The caller's lists are untouched.
   */
  method PrunedCopy(domains: map<Slot, SubjectList>, v: Slot, val: string) returns (r: Option<map<Slot, SubjectList>>)
    ensures r.Some? <==> forall s :: s in domains && s != v ==> RemoveFirst(domains[s].items, val) != []
    ensures r.Some? ==> r.value.Keys == domains.Keys
    ensures r.Some? ==> forall s :: s in domains ==> r.value[s].items == Pruned(v, val, s, domains[s].items)
  {
    var copy := DeepCopy(domains);
    r := ForwardCheck(v, val, copy);
  }

  /** Every slot of `pending` holds a subject taken from its own domain. */
  ghost predicate FromDomains(assignment: map<Slot, string>, pending: set<Slot>, doms: map<Slot, seq<string>>) {
    forall s :: s in pending ==> s in assignment && s in doms && assignment[s] in doms[s]
  }

  /** Every subject left after removing the first occurrence of `x` was in the list. */
  lemma {:induction false} RemoveFirstKeeps(xs: seq<string>, x: string, y: string)
    requires y in RemoveFirst(xs, x)
    ensures y in xs
  {
    if xs != [] && xs[0] != x && y != xs[0] {
      RemoveFirstKeeps(xs[1..], x, y);
    }
  }

  /** Assigning `v` and then completing the other pending slots completes all of them. */
  lemma CompletesStep(before: map<Slot, string>, v: Slot, val: string, after: map<Slot, string>, pending: set<Slot>)
    requires v in pending && v !in before
    requires Completes(before[v := val], after, pending - {v})
    ensures Completes(before, after, pending) && after[v] == val
  {
  }

  /** Adding `v` to slots with pairwise different subjects keeps them so when `v`'s subject is new. */
  lemma InjectiveStep(after: map<Slot, string>, v: Slot, pending: set<Slot>)
    requires v in pending && v in after && InjectiveOn(after, pending - {v})
    requires forall s :: s in pending - {v} ==> s in after && after[s] != after[v]
    ensures InjectiveOn(after, pending)
  {
  }

  /**
   * A successful forward-checking search of the slots other than `v`, after
   * `v` got `val` and `val` was pruned from their lists, completes the search
   * of all pending slots.
   */
  lemma ForwardSuccess(doms: map<Slot, seq<string>>, v: Slot, val: string,
                       before: map<Slot, string>, after: map<Slot, string>, pending: set<Slot>)
    requires v in pending && v !in before && pending <= doms.Keys
    requires val in doms[v]
    requires Completes(before[v := val], after, pending - {v})
    requires FromDomains(after, pending - {v}, PrunedAll(v, val, doms))
    requires AllDistinct(doms) ==> InjectiveOn(after, pending - {v})
    ensures Completes(before, after, pending)
    ensures FromDomains(after, pending, doms)
    ensures AllDistinct(doms) ==> InjectiveOn(after, pending)
  {
    CompletesStep(before, v, val, after, pending);
    forall s | s in pending - {v} ensures after[s] in doms[s] {
      RemoveFirstKeeps(doms[s], val, after[s]);
    }
    if AllDistinct(doms) {
      forall s | s in pending - {v} ensures after[s] != val {
        RemoveFirstDistinct(doms[s], val);
      }
      InjectiveStep(after, v, pending);
    }
  }

  /**
   * A successful assignment of `v` followed by a successful search of the
   * other pending slots is a successful search of all of them.
   */
  lemma ExtendSuccess(before: map<Slot, string>, v: Slot, val: string, after: map<Slot, string>, pending: set<Slot>)
    requires v in pending && forall s :: s in before ==> !SameTime(s, v)
    requires Completes(before[v := val], after, pending - {v}) && (pending - {v}) !! before[v := val].Keys
    requires NoClash(after, pending - {v})
    requires val in Subjects && forall s :: s in pending - {v} ==> after[s] in Subjects
    ensures v !in before && after[v] == val
    ensures Completes(before, after, pending) && pending !! before.Keys
    ensures NoClash(after, pending)
    ensures forall s :: s in pending ==> after[s] in Subjects
  {
    assert SameTime(v, v);
    CompletesStep(before, v, val, after, pending);
    forall s, t | s in pending && t in after && s != t ensures !SameTime(s, t) {
      if s == v {
        if t in before { } else { assert t in pending - {v}; }
      }
    }
  }

  /**
   * Putting a removed slot back into the pending set restores the set of
   * pending slots and its size.
   */
  lemma AddBack(u: seq<Slot>, v: Slot, w: seq<Slot>)
    requires Distinct(u) && v in u && Distinct(w) && Elements(w) == Elements(u) - {v}
    ensures Distinct(Add(w, v)) && Elements(Add(w, v)) == Elements(u) && |Add(w, v)| == |u|
  {
    DistinctSize(Add(w, v));
    DistinctSize(u);
  }

  /** Removing a key that was just added restores the map. */
  lemma PutRemove(m: map<Slot, string>, k: Slot, x: string)
    requires k !in m
    ensures m[k := x] - {k} == m
  {
    assert (m[k := x] - {k}).Keys == m.Keys;
  }

  class Solver {
    var assignment: map<Slot, string>
    var unassigned: seq<Slot>
    var backtracks: nat

    /** `unassigned` is a set: no slot occurs twice. */
    ghost predicate Valid()
      reads this
    {
      Distinct(unassigned)
    }

    /** The state `main` sets up before a run: no assignment, no backtracks, the given slots pending. */
    constructor (slots: seq<Slot>)
      requires Distinct(slots)
      ensures Valid() && assignment == map[] && unassigned == slots && backtracks == 0
    {
      assignment := map[];
      unassigned := slots;
      backtracks := 0;
    }

    /**
     * backtrack: chronological backtracking over the subjects in shuffled order.
     * On failure the assignment and the set of pending slots are as on entry
     * (their order may differ) and at least one backtrack was counted. On
     * success every pending slot has a subject, no other entry changed, and no
     * newly assigned slot shares its time with another assigned slot. When the
     * pending slots' times are all different and free, the search never
     * backtracks.
     */
    method Backtrack() returns (ok: bool)
      requires Valid()
      modifies this
      decreases |unassigned|, 1
      ensures Valid()
      ensures !ok ==> assignment == old(assignment) && Elements(unassigned) == Elements(old(unassigned))
      ensures !ok ==> backtracks > old(backtracks)
      ensures ok ==> unassigned == [] && Completes(old(assignment), assignment, Elements(old(unassigned)))
      ensures ok ==> Elements(old(unassigned)) !! old(assignment).Keys
      ensures ok ==> forall s :: s in Elements(old(unassigned)) ==> assignment[s] in Subjects
      ensures ok ==> NoClash(assignment, Elements(old(unassigned)))
      ensures TimesFree(old(unassigned), old(assignment)) ==> ok && backtracks == old(backtracks)
    {
      if |unassigned| == 0 {
        return true;
      }
      var v := SelectUnassignedVariable(unassigned);
      var values := OrderDomainValues();
      ghost var pending := Elements(unassigned);
      for i := 0 to |values|
        invariant Valid() && v in pending
        invariant assignment == old(assignment) && Elements(unassigned) == pending
        invariant |unassigned| == old(|unassigned|)
        invariant backtracks >= old(backtracks)
        invariant TimesFree(old(unassigned), old(assignment)) ==>
                    i == 0 && backtracks == old(backtracks) && unassigned == old(unassigned)
      {
        assert values[i] in Subjects by { assert values[i] in multiset(values); }
        assert v in Elements(unassigned);
        ok := TryValue(v, values[i]);
        if ok {
          return;
        }
      }
      backtracks := backtracks + 1;
      ok := false;
    }

    /**
     * One pass of backtrack's loop: if `val` is consistent for `v`, assign it,
     * search the rest, and undo the assignment when that search fails.
     */
    method TryValue(v: Slot, val: string) returns (ok: bool)
      requires Valid() && v in unassigned && val in Subjects
      modifies this
      decreases |unassigned|, 0
      ensures Valid()
      ensures !ok ==> assignment == old(assignment) && Elements(unassigned) == Elements(old(unassigned))
      ensures !ok ==> |unassigned| == old(|unassigned|) && backtracks >= old(backtracks)
      ensures ok ==> unassigned == [] && Completes(old(assignment), assignment, Elements(old(unassigned)))
      ensures ok ==> Elements(old(unassigned)) !! old(assignment).Keys
      ensures ok ==> forall s :: s in Elements(old(unassigned)) ==> assignment[s] in Subjects
      ensures ok ==> NoClash(assignment, Elements(old(unassigned)))
      ensures TimesFree(old(unassigned), old(assignment)) && v == old(unassigned)[0] ==>
                ok && backtracks == old(backtracks)
    {
      ok := false;
      var consistent := IsConsistent(v, val, assignment);
      if !consistent {
        return;
      }
      ghost var before := assignment;
      ghost var u := unassigned;
      ghost var free := TimesFree(u, before) && v == u[0];
      assert v !in before by { assert SameTime(v, v); }
      assignment := assignment[v := val];
      unassigned := Without(unassigned, v);
      if free {
        assert unassigned == u[1..] by { assert u[0] !in u[1..]; }
        TimesFreeStep(u, before, val);
      }
      ok := Backtrack();
      if ok {
        ExtendSuccess(before, v, val, assignment, Elements(u));
        return;
      }
      Undo(v, before, u);
    }

    /**
     * backtrackForward: backtracking where each candidate comes from the
     * slot's domain list and is pruned from the other lists of a deep copy.
     * The caller's lists are never changed. On failure the assignment and the
     * set of pending slots are as on entry. On success every pending slot has
     * a subject taken from its own domain, no other entry changed, and, when
     * no list holds a duplicate, the pending slots have pairwise different
     * subjects.
     */
    method BacktrackForward(domains: map<Slot, SubjectList>, ghost doms: map<Slot, seq<string>>) returns (ok: bool)
      requires Valid() && Elements(unassigned) !! assignment.Keys && Elements(unassigned) <= domains.Keys
      requires domains.Keys == doms.Keys && forall s :: s in domains ==> domains[s].items == doms[s]
      modifies this
      decreases |unassigned|, 1
      ensures Valid()
      ensures !ok ==> assignment == old(assignment) && Elements(unassigned) == Elements(old(unassigned))
      ensures !ok ==> backtracks > old(backtracks)
      ensures ok ==> unassigned == [] && Completes(old(assignment), assignment, Elements(old(unassigned)))
      ensures ok ==> FromDomains(assignment, Elements(old(unassigned)), doms)
      ensures ok && AllDistinct(doms) ==> InjectiveOn(assignment, Elements(old(unassigned)))
    {
      if |unassigned| == 0 {
        return true;
      }
      var v := unassigned[0];
      var values := domains[v].items;
      ghost var pending := Elements(unassigned);
      ghost var before := assignment;
      assert v !in before;
      for i := 0 to |values|
        invariant Valid() && v in pending
        invariant assignment == before && Elements(unassigned) == pending
        invariant |unassigned| == old(|unassigned|)
        invariant backtracks >= old(backtracks)
      {
        var val := values[i];
        assignment := assignment[v := val];
        var pruned := PrunedCopy(domains, v, val);
        if pruned.Some? {
          assert v in Elements(unassigned);
          if AllDistinct(doms) {
            PrunedDistinct(doms, v, val);
          }
          ok := Descend(pruned.value, doms, v, val);
          if ok {
            ForwardSuccess(doms, v, val, before, assignment, pending);
            return;
          }
        }
        PutRemove(before, v, val);
        assignment := assignment - {v};
      }
      backtracks := backtracks + 1;
      ok := false;
    }

    /**
     * The rest of one pass of backtrackForward's loop, once `v` holds `val`
     * and forward checking left no list empty: take `v` out of the pending
     * set, search the rest with the pruned lists, and put `v` back when that
     * search fails.
     */
    method Descend(pruned: map<Slot, SubjectList>, ghost doms: map<Slot, seq<string>>, v: Slot, val: string)
      returns (ok: bool)
      requires Valid() && v in unassigned && v in assignment && assignment[v] == val
      requires (Elements(unassigned) - {v}) !! assignment.Keys && Elements(unassigned) <= pruned.Keys
      requires pruned.Keys == doms.Keys
      requires forall s :: s in pruned ==> pruned[s].items == Pruned(v, val, s, doms[s])
      modifies this
      decreases |unassigned|, 0
      ensures Valid()
      ensures !ok ==> assignment == old(assignment) && Elements(unassigned) == Elements(old(unassigned))
      ensures !ok ==> |unassigned| == old(|unassigned|) && backtracks >= old(backtracks)
      ensures ok ==> unassigned == []
      ensures ok ==> Completes(old(assignment), assignment, Elements(old(unassigned)) - {v})
      ensures ok ==> FromDomains(assignment, Elements(old(unassigned)) - {v}, PrunedAll(v, val, doms))
      ensures ok && AllDistinct(PrunedAll(v, val, doms)) ==>
                InjectiveOn(assignment, Elements(old(unassigned)) - {v})
    {
      ghost var u := unassigned;
      unassigned := Without(unassigned, v);
      ok := BacktrackForward(pruned, PrunedAll(v, val, doms));
      if !ok {
        AddBack(u, v, unassigned);
        unassigned := Add(unassigned, v);
      }
    }

    /**
     * The undo step after a failed recursive search: `v` goes back into the
     * pending set (at its end) and loses its subject.
     */
    method Undo(v: Slot, ghost before: map<Slot, string>, ghost u: seq<Slot>)
      requires Valid() && Distinct(u) && v in u && Elements(unassigned) == Elements(u) - {v}
      requires v !in before && v in assignment && assignment == before[v := assignment[v]]
      modifies this
      ensures Valid() && assignment == before && unassigned == Add(old(unassigned), v)
      ensures Elements(unassigned) == Elements(u) && |unassigned| == |u|
      ensures backtracks == old(backtracks)
    {
      AddBack(u, v, unassigned);
      unassigned := Add(unassigned, v);
      assignment := assignment - {v};
      assert assignment == before;
    }
  }

  // ----- the two runs of main -----

  const Days: nat := 5
  const Periods: nat := 4

  /** The subjects are pairwise different. */
  lemma SubjectsDistinct()
    ensures Distinct(Subjects) && |Elements(Subjects)| == |Subjects|
  {
    DistinctSize(Subjects);
  }

  /** Two different positions of the generated slot list name different (day, period) pairs. */
  lemma {:induction false} PositionsDiffer(i: int, j: int)
    requires 0 <= i < j
    ensures i / Periods != j / Periods || i % Periods != j % Periods
  {
    if i / Periods == j / Periods {
      assert i == Periods * (i / Periods) + i % Periods;
      assert j == Periods * (j / Periods) + j % Periods;
    }
  }

  /**
   * main's slot generation: one new slot per (day, period), days 1..DAYS
   * outer, periods 1..PERIODS inner, in insertion order.
   */
  method AllSlots() returns (slots: seq<Slot>)
    ensures |slots| == Days * Periods
    ensures forall i :: 0 <= i < |slots| ==> fresh(slots[i])
    ensures forall i :: 0 <= i < |slots| ==> slots[i].day == i / Periods + 1 && slots[i].period == i % Periods + 1
  {
    slots := [];
    for d := 1 to Days + 1
      invariant |slots| == (d - 1) * Periods
      invariant forall i :: 0 <= i < |slots| ==> fresh(slots[i])
      invariant forall i :: 0 <= i < |slots| ==> slots[i].day == i / Periods + 1 && slots[i].period == i % Periods + 1
    {
      for p := 1 to Periods + 1
        invariant |slots| == (d - 1) * Periods + (p - 1)
        invariant forall i :: 0 <= i < |slots| ==> fresh(slots[i])
        invariant forall i :: 0 <= i < |slots| ==> slots[i].day == i / Periods + 1 && slots[i].period == i % Periods + 1
      {
        var slot := new Slot(d, p);
        slots := slots + [slot];
      }
    }
  }

  /** Slots at pairwise different times are pairwise different objects, and none clashes with another. */
  lemma GeneratedSlotsFree(slots: seq<Slot>)
    requires forall i :: 0 <= i < |slots| ==> slots[i].day == i / Periods + 1 && slots[i].period == i % Periods + 1
    ensures Distinct(slots) && TimesFree(slots, map[])
  {
    forall i, j | 0 <= i < j < |slots| ensures !SameTime(slots[i], slots[j]) {
      PositionsDiffer(i, j);
    }
  }

  /**
   * main's first run: plain backtracking from an empty assignment over all
   * generated slots. Their times are all different, so it succeeds without a
   * single backtrack and gives every slot a subject.
   */
  method PlainRun() returns (ok: bool, backtracks: nat, assignment: map<Slot, string>)
    ensures ok && backtracks == 0 && |assignment| == Days * Periods
    ensures forall s :: s in assignment ==> assignment[s] in Subjects
  {
    var slots := AllSlots();
    GeneratedSlotsFree(slots);
    var solver := new Solver(slots);
    ok := solver.Backtrack();
    backtracks := solver.backtracks;
    assignment := solver.assignment;
    DistinctSize(slots);
    assert assignment.Keys == Elements(slots);
  }

  /**
   * main's second run: forward checking from an empty assignment, every slot
   * starting with the full list of subjects. Assigning a subject prunes it
   * from every other slot, so the slots of a successful search would carry
   * pairwise different subjects; with more slots than subjects the search
   * fails, after at least one backtrack.
   */
  method ForwardRun() returns (ok: bool, backtracks: nat)
    ensures !ok && backtracks > 0
  {
    var slots := AllSlots();
    GeneratedSlotsFree(slots);
    var domains: map<Slot, SubjectList> := map[];
    ghost var doms: map<Slot, seq<string>> := map[];
    for i := 0 to |slots|
      invariant domains.Keys == doms.Keys == Elements(slots[..i])
      invariant forall s :: s in domains ==> domains[s].items == Subjects && doms[s] == Subjects
    {
      var list := new SubjectList(Subjects);
      domains := domains[slots[i] := list];
      doms := doms[slots[i] := Subjects];
      assert slots[..i + 1] == slots[..i] + [slots[i]];
    }
    assert slots[..|slots|] == slots;
    var solver := new Solver(slots);
    ok := solver.BacktrackForward(domains, doms);
    backtracks := solver.backtracks;
    if ok {
      SubjectsDistinct();
      assert AllDistinct(doms);
      Pigeonhole(solver.assignment, Elements(slots), Elements(Subjects));
      DistinctSize(slots);
      assert false;
    }
  }
}
