/** The four insertion callbacks of the repository, as choices of child, and the orders they keep. */
module RbOrder {
  import opened Records

  /** Which function `tree->insert` points at: str_unit_rbtree_insert_value, rbtree_insert_value,
      key_value_rbtree_insert_value, or rbtree_insert_timer_value for timers no earlier than `base`. */
  datatype Policy = StrUnits | KeysOnly | KeyValue | Timers(base: nat)

  /** Values of a 64-bit rbtree_key_t. */
  const KEY_LIMIT: int := 0x1_0000_0000_0000_0000

  /** Records the callback can compare. The str_unit one reads `len` bytes of `data`; the timer one is meant
      for keys that lie within half the range of one another, whether or not they wrapped around. */
  predicate Comparable(o: Policy, r: Record) {
    && (o.StrUnits? ==> r.Readable())
    && (o.Timers? ==> r.key < KEY_LIMIT && Offset(o.base, r.key) < KEY_LIMIT / 2)
  }

  /** How far `key` is ahead of `base`, modulo the key range. */
  function Offset(base: nat, key: nat): nat {
    (key - base) % KEY_LIMIT
  }

  /** The unsigned difference, read as an rbtree_key_int_t, is negative. */
  predicate TimerBefore(n: nat, t: nat) {
    (n - t) % KEY_LIMIT >= KEY_LIMIT / 2
  }

  /** Across an overflow, the signed difference orders timers as their distances from `base` do. */
  lemma TimersAreOrdered(base: nat, n: nat, t: nat)
    requires Offset(base, n) < KEY_LIMIT / 2 && Offset(base, t) < KEY_LIMIT / 2
    ensures TimerBefore(n, t) <==> Offset(base, n) < Offset(base, t)
  {
    var on: int, ot: int := Offset(base, n), Offset(base, t);
    var qn, qt := (n - base) / KEY_LIMIT, (t - base) / KEY_LIMIT;
    assert n - t == (qn - qt) * KEY_LIMIT + (on - ot);
    ModIs(n - t, qn - qt, on - ot);
  }

  lemma ModIs(x: int, q: int, r: int)
    requires x == q * KEY_LIMIT + r && -KEY_LIMIT < r < KEY_LIMIT
    ensures x % KEY_LIMIT == if r < 0 then KEY_LIMIT + r else r
  {
    if r < 0 {
      assert x == (q - 1) * KEY_LIMIT + (KEY_LIMIT + r);
    }
  }

  /** Timers order themselves as plain 64-bit keys do exactly when they are less than half the range apart,
      or exactly half with the earlier one smaller: so without an overflow between them. */
  lemma TimersWithoutOverflow(n: nat, t: nat)
    requires n < 0x1_0000_0000_0000_0000 && t < 0x1_0000_0000_0000_0000
    ensures (TimerBefore(n, t) <==> n < t) <==> -0x8000_0000_0000_0000 <= n - t < 0x8000_0000_0000_0000
  {
    ModIs(n - t, 0, n - t);
  }

  /** Spread further than that, "before" can go round in a circle. */
  lemma TimersCanCycle()
    ensures exists a: nat, b: nat, c: nat ::
      a < KEY_LIMIT && b < KEY_LIMIT && c < KEY_LIMIT && TimerBefore(a, b) && TimerBefore(b, c) && TimerBefore(c, a)
  {
    var third := KEY_LIMIT / 3;
    assert TimerBefore(0, third) && TimerBefore(third, 2 * third) && TimerBefore(2 * third, 0);
  }

  /** All timers lie within half the range of `base`. */
  predicate FitFrom(keys: seq<nat>, base: nat) {
    forall i :: 0 <= i < |keys| ==> Offset(base, keys[i]) < KEY_LIMIT / 2
  }

  /** Timer `s` is before every different timer, and none is before it. */
  predicate IsEarliest(keys: seq<nat>, s: nat)
    requires s < |keys|
  {
    forall i :: 0 <= i < |keys| ==>
      keys[i] == keys[s] || (TimerBefore(keys[s], keys[i]) && !TimerBefore(keys[i], keys[s]))
  }

  lemma SameOffset(base: nat, a: nat, b: nat)
    requires a < KEY_LIMIT && b < KEY_LIMIT && Offset(base, a) == Offset(base, b)
    ensures a == b
  {
    var q := (a - base) / KEY_LIMIT - (b - base) / KEY_LIMIT;
    assert a - b == q * KEY_LIMIT;
  }

  /** "Before" is a strict order of the timers, total but for equal keys. */
  predicate BeforeIsOrder(keys: seq<nat>) {
    && (forall i, j :: 0 <= i < |keys| && 0 <= j < |keys| ==>
          !(TimerBefore(keys[i], keys[j]) && TimerBefore(keys[j], keys[i]))
          && (keys[i] == keys[j] || TimerBefore(keys[i], keys[j]) || TimerBefore(keys[j], keys[i])))
    && (forall i, j, k :: 0 <= i < |keys| && 0 <= j < |keys| && 0 <= k < |keys| ==>
          TimerBefore(keys[i], keys[j]) && TimerBefore(keys[j], keys[k]) ==> TimerBefore(keys[i], keys[k]))
  }

  lemma FitIsOrder(keys: seq<nat>, base: nat)
    requires FitFrom(keys, base) && forall i :: 0 <= i < |keys| ==> keys[i] < KEY_LIMIT
    ensures BeforeIsOrder(keys)
  {
    forall i, j | 0 <= i < |keys| && 0 <= j < |keys|
      ensures TimerBefore(keys[i], keys[j]) <==> Offset(base, keys[i]) < Offset(base, keys[j])
      ensures Offset(base, keys[i]) == Offset(base, keys[j]) ==> keys[i] == keys[j]
    {
      TimersAreOrdered(base, keys[i], keys[j]);
      if Offset(base, keys[i]) == Offset(base, keys[j]) {
        SameOffset(base, keys[i], keys[j]);
      }
    }
    hide TimerBefore, Offset;
  }

  lemma {:induction false} OrderHasFirst(keys: seq<nat>) returns (s: nat)
    requires keys != [] && BeforeIsOrder(keys)
    ensures s < |keys| && IsEarliest(keys, s)
  {
    hide TimerBefore;
    if |keys| == 1 {
      s := 0;
    } else {
      var r := OrderHasFirst(keys[1..]);
      assert forall i :: 0 < i < |keys| ==> keys[i] == keys[1..][i - 1];
      s := if TimerBefore(keys[0], keys[r + 1]) then 0 else r + 1;
    }
  }

  /** Some base makes the timers comparable exactly when "before" is an order of them, and exactly when one
      of them is before all the others. */
  lemma TimersFitIff(keys: seq<nat>)
    requires keys != [] && forall i :: 0 <= i < |keys| ==> keys[i] < KEY_LIMIT
    ensures (exists base: nat :: FitFrom(keys, base)) <==> BeforeIsOrder(keys)
    ensures BeforeIsOrder(keys) <==> exists s: nat :: s < |keys| && IsEarliest(keys, s)
  {
    if base: nat :| FitFrom(keys, base) {
      FitIsOrder(keys, base);
    }
    if BeforeIsOrder(keys) {
      var s := OrderHasFirst(keys);
    }
    if s: nat :| s < |keys| && IsEarliest(keys, s) {
      assert FitFrom(keys, keys[s]);
      FitIsOrder(keys, keys[s]);
    }
  }

  /** The child of `t` the callback goes to with the new record `n`, or Here when it overwrites `t`. */
  function InsertTurn(o: Policy, n: Record, t: Record): Turn
    requires Comparable(o, n) && Comparable(o, t)
  {
    match o
    case StrUnits => if InsertGoesRight(n, t) then Right else Left
    case KeysOnly => if n.key < t.key then Left else Right
    case KeyValue => if n.key != t.key then (if n.key > t.key then Right else Left) else Here
    case Timers(_) => if TimerBefore(n.key, t.key) then Left else Right
  }

  /** `a` must come before `b`. */
  predicate Precedes(o: Policy, a: Record, b: Record)
    requires Comparable(o, a) && Comparable(o, b)
  {
    if o.StrUnits? then Less(a, b)
    else if o.Timers? then Offset(o.base, a.key) < Offset(o.base, b.key)
    else a.key < b.key
  }

  /** Nothing stands before something it must follow; under KeyValue no key occurs twice. */
  predicate Sorted(o: Policy, rs: seq<Record>) {
    && (forall i :: 0 <= i < |rs| ==> Comparable(o, rs[i]))
    && (forall i, j :: 0 <= i < j < |rs| ==> !Precedes(o, rs[j], rs[i]))
    && (o.KeyValue? ==> forall i, j :: 0 <= i < j < |rs| ==> rs[i].key != rs[j].key)
  }

  /** If the callback would pass `y` on the right, it would pass everything before `y` on the right;
      if it would pass `x` on the left, everything after `x` on the left. */
  lemma TurnsAreMonotone(o: Policy, n: Record, x: Record, y: Record)
    requires Comparable(o, n) && Comparable(o, x) && Comparable(o, y) && !Precedes(o, y, x)
    requires o.KeyValue? ==> x.key != y.key
    ensures InsertTurn(o, n, y) == Right ==> InsertTurn(o, n, x) == Right
    ensures InsertTurn(o, n, x) == Left ==> InsertTurn(o, n, y) == Left
    ensures InsertTurn(o, n, y) == Here ==> InsertTurn(o, n, x) == Right
    ensures InsertTurn(o, n, x) == Here ==> InsertTurn(o, n, y) == Left
  {
    if o.StrUnits? {
      DescentsAgree(x, n.key, n);
      DescentsAgree(y, n.key, n);
      LessIsStrictTotal(x, y, n);
    } else if o.Timers? {
      TimersAreOrdered(o.base, n.key, x.key);
      TimersAreOrdered(o.base, n.key, y.key);
    }
  }

  /** `n` goes after all records the callback passes on the right and before all it passes on the left:
      the order survives. */
  lemma SpliceKeepsSorted(o: Policy, pre: seq<Record>, n: Record, post: seq<Record>)
    requires Sorted(o, pre + post) && Comparable(o, n)
    requires forall i :: 0 <= i < |pre| ==> Comparable(o, pre[i]) && InsertTurn(o, n, pre[i]) == Right
    requires forall i :: 0 <= i < |post| ==> Comparable(o, post[i]) && InsertTurn(o, n, post[i]) == Left
    ensures Sorted(o, pre + [n] + post)
  {
    var was, rs, k := pre + post, pre + [n] + post, |pre|;
    forall i | 0 <= i < |rs| ensures Comparable(o, rs[i]) {
    }
    forall i, j | 0 <= i < j < |rs|
      ensures !Precedes(o, rs[j], rs[i]) && (o.KeyValue? ==> rs[i].key != rs[j].key)
    {
      if i != k && j != k {
        assert rs[i] == was[if i < k then i else i - 1] && rs[j] == was[if j < k then j else j - 1];
      } else if o.StrUnits? {
        var x := if i == k then rs[j] else rs[i];
        DescentsAgree(x, n.key, n);
        LessIsStrictTotal(x, n, x);
      } else if o.Timers? {
        TimersAreOrdered(o.base, n.key, (if i == k then rs[j] else rs[i]).key);
      }
    }
  }

  lemma SameKeysSorted(o: Policy, rs: seq<Record>, now: seq<Record>)
    requires Sorted(o, rs) && o.KeyValue? && |now| == |rs|
    requires forall i :: 0 <= i < |rs| ==> now[i].key == rs[i].key
    ensures Sorted(o, now)
  {
  }

  lemma SortedWithout(o: Policy, rs: seq<Record>, k: nat, now: seq<Record>)
    requires Sorted(o, rs) && k < |rs| && |now| + 1 == |rs|
    requires forall i :: 0 <= i < |now| ==> now[i] == rs[if i < k then i else i + 1]
    ensures Sorted(o, now)
  {
    hide Precedes;
  }

  /** Where the callback puts `n` in a sorted sequence does not depend on the tree: it is after all the
      strictly smaller records, and before (StrUnits) or after (KeysOnly, Timers) the equal ones. */
  lemma SplicePlace(o: Policy, n: Record, t: Record)
    requires Comparable(o, n) && Comparable(o, t)
    ensures o.StrUnits? ==> (InsertTurn(o, n, t) == Right <==> Precedes(o, t, n))
    ensures o.KeysOnly? || o.Timers? ==> (InsertTurn(o, n, t) == Left <==> Precedes(o, n, t))
    ensures o.KeyValue? ==> (InsertTurn(o, n, t) == Right <==> Precedes(o, t, n))
                            && (InsertTurn(o, n, t) == Left <==> Precedes(o, n, t))
  {
    if o.StrUnits? {
      DescentsAgree(t, n.key, n);
    } else if o.Timers? {
      TimersAreOrdered(o.base, n.key, t.key);
    }
  }

  /** The turns in terms of the values themselves. Plain keys: smaller to the left, equal ones to the right, and
      under KeyValue overwritten. Timers within half the range of each other: the same. Strings: by key, then by
      length, then by the first byte that differs; equal ones to the left. */
  lemma TurnsByValue(o: Policy, n: Record, t: Record)
    requires Comparable(o, n) && Comparable(o, t)
    ensures !o.Timers? && n.key != t.key ==> InsertTurn(o, n, t) == if n.key < t.key then Left else Right
    ensures o.Timers? && -0x8000_0000_0000_0000 <= n.key - t.key < 0x8000_0000_0000_0000 ==>
      InsertTurn(o, n, t) == if n.key < t.key then Left else Right
    ensures n.key == t.key && !o.StrUnits? ==> InsertTurn(o, n, t) == if o.KeyValue? then Here else Right
    ensures o.StrUnits? && n.key == t.key && n.len != t.len ==>
      InsertTurn(o, n, t) == if n.len < t.len then Left else Right
    ensures o.StrUnits? && n.key == t.key && n.len == t.len ==>
      InsertTurn(o, n, t) == if exists k :: 0 <= k < n.len && n.data[..k] == t.data[..k] && n.data[k] > t.data[k]
                             then Right else Left
  {
    if o.Timers? {
      TimersWithoutOverflow(n.key, t.key);
    } else if o.StrUnits? && n.key == t.key && n.len == t.len {
      MemCmpIsLexicographic(n.data, t.data, n.len);
      if k :| 0 <= k < n.len && n.data[..k] == t.data[..k] && n.data[k] > t.data[k] {
        assert DiffersAt(t.data, n.data, k);
      }
    }
  }

  /** But for timers, a sorted sequence has its keys in ascending order. */
  lemma KeysAscend(o: Policy, rs: seq<Record>)
    requires Sorted(o, rs) && !o.Timers?
    ensures forall i, j :: 0 <= i < j < |rs| ==> rs[i].key <= rs[j].key
  {
  }

  // ---------- searching ----------

  /** The record the lookup is after: the whole record in str_unit_rbtree_lookup, the key alone in key_value_get. */
  predicate Matches(o: Policy, t: Record, probe: Record)
    requires Comparable(o, t) && Comparable(o, probe)
  {
    if o.StrUnits? then Same(t, probe) else t.key == probe.key
  }

  /** The child of `t` the lookup goes to, or Here when it returns `t`. */
  function SearchTurn(o: Policy, t: Record, probe: Record): Turn
    requires Comparable(o, t) && Comparable(o, probe)
  {
    if o.StrUnits? then LookupTurn(t, probe.key, probe)
    else if probe.key != t.key then (if probe.key > t.key then Right else Left)
    else Here
  }

  /** The lookup follows the same order as the insertion, and a turn rules out everything it turns away from. */
  lemma SearchTurnsAgree(o: Policy, t: Record, probe: Record)
    requires Comparable(o, t) && Comparable(o, probe) && !o.Timers?
    ensures SearchTurn(o, t, probe) == Right <==> Precedes(o, t, probe)
    ensures SearchTurn(o, t, probe) == Left <==> Precedes(o, probe, t)
    ensures SearchTurn(o, t, probe) == Here <==> Matches(o, t, probe)
  {
    if o.StrUnits? {
      DescentsAgree(t, probe.key, probe);
    }
  }

  /** `x` stands before `y` in the tree. */
  lemma TurnsRuleOut(o: Policy, x: Record, y: Record, probe: Record)
    requires Comparable(o, x) && Comparable(o, y) && Comparable(o, probe) && !Precedes(o, y, x) && !o.Timers?
    ensures SearchTurn(o, y, probe) == Right ==> !Matches(o, x, probe)
    ensures SearchTurn(o, x, probe) == Left ==> !Matches(o, y, probe)
  {
    SearchTurnsAgree(o, x, probe);
    SearchTurnsAgree(o, y, probe);
    if o.StrUnits? {
      LessIsStrictTotal(x, y, probe);
      LessIsStrictTotal(probe, x, y);
    }
  }
}
