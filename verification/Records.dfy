/** The keys of the ordered tree, and the two ways test/test_rbtree.c compares them. */
module Records {
  newtype byte = x: int | 0 <= x < 256

  /** What a str_unit_t carries: rbtree key (a hash), length and bytes. */
  datatype Record = Record(key: nat, len: nat, data: seq<byte>) {
    /** `data` holds at least the `len` bytes memcmp will read. */
    predicate Readable() {
      len <= |data|
    }
  }

  /** memcmp of ISO/IEC 9899:2011, section 7.24.4.1: bytes compared as unsigned char, in order. */
  function MemCmp(a: seq<byte>, b: seq<byte>, n: nat): int
    requires n <= |a| && n <= |b|
  {
    if n == 0 then 0
    else if a[0] != b[0] then a[0] as int - b[0] as int
    else MemCmp(a[1..], b[1..], n - 1)
  }

  /** `a` and `b` first differ at `k`, and `a` is smaller there. */
  predicate DiffersAt(a: seq<byte>, b: seq<byte>, k: nat) {
    k < |a| && k < |b| && a[..k] == b[..k] && a[k] < b[k]
  }

  lemma {:induction false} MemCmpIsLexicographic(a: seq<byte>, b: seq<byte>, n: nat)
    requires n <= |a| && n <= |b|
    ensures MemCmp(a, b, n) == 0 <==> a[..n] == b[..n]
    ensures MemCmp(a, b, n) < 0 <==> exists k :: 0 <= k < n && DiffersAt(a, b, k)
    ensures MemCmp(a, b, n) > 0 <==> exists k :: 0 <= k < n && DiffersAt(b, a, k)
  {
    if n > 0 {
      if a[0] != b[0] {
        assert DiffersAt(a, b, 0) || DiffersAt(b, a, 0);
        forall k | 0 < k < n ensures !DiffersAt(a, b, k) && !DiffersAt(b, a, k) {
          assert a[..k][0] != b[..k][0];
        }
        assert a[..n][0] != b[..n][0];
      } else {
        MemCmpIsLexicographic(a[1..], b[1..], n - 1);
        TakeCons(a, n);
        TakeCons(b, n);
        forall k | 0 <= k < n - 1
          ensures DiffersAt(a[1..], b[1..], k) <==> DiffersAt(a, b, k + 1)
          ensures DiffersAt(b[1..], a[1..], k) <==> DiffersAt(b, a, k + 1)
        {
          ShiftDiff(a, b, k);
          ShiftDiff(b, a, k);
        }
        assert !DiffersAt(a, b, 0) && !DiffersAt(b, a, 0);
        ShiftExists(a, b, n);
        ShiftExists(b, a, n);
      }
    }
  }

  lemma TakeCons(a: seq<byte>, n: nat)
    requires 0 < n <= |a|
    ensures a[..n] == [a[0]] + a[1..][..n - 1]
  {
    assert forall i :: 0 < i < n ==> a[..n][i] == a[1..][..n - 1][i - 1];
  }

  lemma ShiftDiff(a: seq<byte>, b: seq<byte>, k: nat)
    requires a != [] && b != [] && a[0] == b[0]
    ensures DiffersAt(a[1..], b[1..], k) <==> DiffersAt(a, b, k + 1)
  {
    if k + 1 < |a| && k + 1 < |b| {
      TakeCons(a, k + 1);
      TakeCons(b, k + 1);
      assert a[1..][..k] == a[..k + 1][1..] && b[1..][..k] == b[..k + 1][1..];
    }
  }

  lemma ShiftExists(a: seq<byte>, b: seq<byte>, n: nat)
    requires 0 < n <= |a| && n <= |b| && a[0] == b[0]
    ensures (exists k :: 0 <= k < n - 1 && DiffersAt(a[1..], b[1..], k)) <==>
        (exists k :: 0 <= k < n && DiffersAt(a, b, k))
  {
    forall k | 0 <= k < n - 1 ensures DiffersAt(a[1..], b[1..], k) <==> DiffersAt(a, b, k + 1) {
      ShiftDiff(a, b, k);
    }
    if k :| 0 <= k < n && DiffersAt(a, b, k) {
      assert k != 0;
      assert DiffersAt(a[1..], b[1..], k - 1);
    }
  }

  lemma {:induction false} MemCmpSwaps(a: seq<byte>, b: seq<byte>, n: nat)
    requires n <= |a| && n <= |b|
    ensures MemCmp(a, b, n) == -MemCmp(b, a, n)
  {
    if n > 0 && a[0] == b[0] {
      MemCmpSwaps(a[1..], b[1..], n - 1);
    }
  }

  lemma {:induction false} MemCmpTransitive(a: seq<byte>, b: seq<byte>, c: seq<byte>, n: nat)
    requires n <= |a| && n <= |b| && n <= |c|
    requires MemCmp(a, b, n) <= 0 && MemCmp(b, c, n) <= 0
    ensures MemCmp(a, c, n) <= 0
    ensures MemCmp(a, b, n) < 0 || MemCmp(b, c, n) < 0 ==> MemCmp(a, c, n) < 0
  {
    if n > 0 && a[0] == b[0] == c[0] {
      MemCmpTransitive(a[1..], b[1..], c[1..], n - 1);
    }
  }

  // ---------- the order, and the two descents ----------

  /** Lexicographic on key, then length, then bytes. */
  predicate Less(a: Record, b: Record)
    requires a.Readable() && b.Readable()
  {
    a.key < b.key || (a.key == b.key && (a.len < b.len || (a.len == b.len && MemCmp(a.data, b.data, a.len) < 0)))
  }

  /** Same key, length and bytes. */
  predicate Same(a: Record, b: Record)
    requires a.Readable() && b.Readable()
  {
    a.key == b.key && a.len == b.len && a.data[..a.len] == b.data[..b.len]
  }

  /** str_unit_rbtree_insert_value's choice of child, lines 27-36. */
  predicate InsertGoesRight(n: Record, t: Record)
    requires n.Readable() && t.Readable()
  {
    if n.key != t.key then n.key > t.key
    else if n.len != t.len then n.len > t.len
    else MemCmp(n.data, t.data, n.len) > 0
  }

  datatype Turn = Left | Right | Here

  /** str_unit_rbtree_lookup's choice at one node, lines 66-86. */
  function LookupTurn(n: Record, hash: nat, val: Record): Turn
    requires n.Readable() && val.Readable()
  {
    if hash != n.key then (if hash > n.key then Right else Left)
    else if n.len != val.len then (if val.len > n.len then Right else Left)
    else
      var rc := MemCmp(n.data, val.data, val.len);
      if rc > 0 then Left else if rc < 0 then Right else Here
  }

  /** Both descents follow the same order. */
  lemma DescentsAgree(n: Record, hash: nat, val: Record)
    requires n.Readable() && val.Readable()
    ensures var probe := Record(hash, val.len, val.data);
      && InsertGoesRight(probe, n) == Less(n, probe)
      && (LookupTurn(n, hash, val) == Right <==> Less(n, probe))
      && (LookupTurn(n, hash, val) == Left <==> Less(probe, n))
      && (LookupTurn(n, hash, val) == Here <==> Same(n, probe))
  {
    if n.key == hash && n.len == val.len {
      MemCmpSwaps(n.data, val.data, n.len);
      MemCmpIsLexicographic(n.data, val.data, n.len);
    }
  }

  /** Less is a strict order, and it is total up to Same. */
  lemma LessIsStrictTotal(a: Record, b: Record, c: Record)
    requires a.Readable() && b.Readable() && c.Readable()
    ensures !(Less(a, b) && Less(b, a))
    ensures Less(a, b) || Less(b, a) || Same(a, b)
    ensures Same(a, b) ==> !Less(a, b)
    ensures Less(a, b) && Less(b, c) ==> Less(a, c)
    ensures !Less(b, a) && Less(b, c) ==> Less(a, c)
    ensures Less(a, b) && !Less(c, b) ==> Less(a, c)
  {
    if a.key == b.key && a.len == b.len {
      MemCmpSwaps(a.data, b.data, a.len);
      MemCmpIsLexicographic(a.data, b.data, a.len);
    }
    if a.key == b.key == c.key && a.len == b.len == c.len {
      MemCmpSwaps(b.data, c.data, a.len);
      if MemCmp(a.data, b.data, a.len) <= 0 && MemCmp(b.data, c.data, a.len) <= 0 {
        MemCmpTransitive(a.data, b.data, c.data, a.len);
      }
    }
  }
}
