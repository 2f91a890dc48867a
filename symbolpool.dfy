/** The intern table of OSSymbol.cpp (`OSSymbolPool`): an array of
    buckets, each an ordered list of symbols, indexed by a byte hash of the
    symbol's text modulo the number of buckets. The pool records with each
    symbol the text it was inserted with; symbols are never written after
    they are pooled, so that text is the symbol's own. */
module SymbolPool {
  import opened CStrings
  import opened OSStrings

  datatype Option<T> = None | Some(value: T)

  /** One pooled symbol and the text (without its NUL) the pool knows it by. */
  datatype Entry = Entry(sym: OSString, text: seq<CChar>)

  // ---------------------------------------------------------------- hash

  /** Bitwise exclusive or of two naturals. */
  function Xor(x: nat, y: nat): nat
    decreases x + y
  {
    if x == 0 then y
    else if y == 0 then x
    else 2 * Xor(x / 2, y / 2) + (if x % 2 == y % 2 then 0 else 1)
  }

  /** Exclusive or keeps numbers of `k` bits within `k` bits. */
  lemma {:induction false} XorBound(x: nat, y: nat, k: nat)
    requires x < Pow2(k) && y < Pow2(k)
    ensures Xor(x, y) < Pow2(k)
    decreases x + y
  {
    if x != 0 && y != 0 {
      assert k > 0;
      XorBound(x / 2, y / 2, k - 1);
    }
  }

  const Word: nat := 0x1_0000_0000

  /** A `char` as `hashSymbol` sees it: a signed byte, promoted to `int`
      with its sign, then taken as a 32-bit unsigned value. */
  function Promote(c: CChar): (r: nat)
    ensures r < Word
  {
    if c as int < 0x80 then c as int else c as int + 0xffff_ff00
  }

  /** The promoted byte shifted left by `8 * r` bits, in 32 bits. */
  function Round(c: CChar, r: nat): (x: nat)
    requires r < 4
    ensures x < Word
  {
    var p := Promote(c);
    if r == 0 then p
    else if r == 1 then (p * 0x100) % Word
    else if r == 2 then (p * 0x1_0000) % Word
    else (p * 0x100_0000) % Word
  }

  /** The hash of the first `n` bytes of `b`: the exclusive or of every
      byte, shifted by 0, 8, 16 or 24 bits after its position modulo 4. */
  function HashPrefix(b: seq<CChar>, n: nat): (h: nat)
    requires n <= |b|
    ensures h < Word
  {
    if n == 0 then 0
    else
      var h0, x := HashPrefix(b, n - 1), Round(b[n - 1], (n - 1) % 4);
      assert Word == Pow2(32) by { Pow2Word(); }
      XorBound(h0, x, 32);
      Xor(h0, x)
  }

  lemma Pow2Word()
    ensures Pow2(32) == Word
  {
    assert Pow2(8) == 0x100;
    assert Pow2(16) == 0x1_0000 by { Pow2Add(8, 8); }
    assert Pow2(32) == Word by { Pow2Add(16, 16); }
  }

  lemma {:induction false} Pow2Add(a: nat, b: nat)
    ensures Pow2(a + b) == Pow2(a) * Pow2(b)
  {
    if b > 0 {
      Pow2Add(a, b - 1);
    }
  }

  /** The hash of a whole byte string. */
  function HashBytes(b: seq<CChar>): (h: nat)
    ensures h < Word
  {
    HashPrefix(b, |b|)
  }

  /** One round of `hashSymbol`: mixing in the byte at position `k`. */
  lemma Mixed(b: seq<CChar>, k: nat, hash: nat, c: CChar, q: nat, r: nat)
    requires k < |b| && hash == HashPrefix(b, k) && c == b[k] && r < 4 && k == 4 * q + r
    ensures Xor(hash, Round(c, r)) == HashPrefix(b, k + 1)
  {
    assert k % 4 == r;
  }

  /** The bucket of a text in a pool of `n` buckets: `hash % nBuckets`. */
  function Slot(text: seq<CChar>, n: nat): (r: nat)
    requires n > 0
    ensures r < n
  {
    HashBytes(text) % n
  }

  /** `hashSymbol`: the length of the C string `s` and the hash of its
      bytes, four bytes per round. */
  method HashSymbol(s: seq<CChar>) returns (hash: nat, len: nat)
    requires NUL in s
    ensures len == StrLen(s)
    ensures hash == HashBytes(CStr(s))
  {
    ghost var b := CStr(s);
    assert |b| < |s| && s[|b|] == NUL;
    assert forall k :: 0 <= k < |b| ==> s[k] == b[k] && s[k] != NUL;
    hash, len := 0, 0;
    ghost var q := 0;
    while true
      invariant len <= |b| < |s| && len == 4 * q
      invariant hash == HashPrefix(b, len)
      decreases |b| - len
    {
      if s[len] == NUL { break; }
      Mixed(b, len, hash, s[len], q, 0);
      hash := Xor(hash, Round(s[len], 0)); len := len + 1;
      if s[len] == NUL { break; }
      Mixed(b, len, hash, s[len], q, 1);
      hash := Xor(hash, Round(s[len], 1)); len := len + 1;
      if s[len] == NUL { break; }
      Mixed(b, len, hash, s[len], q, 2);
      hash := Xor(hash, Round(s[len], 2)); len := len + 1;
      if s[len] == NUL { break; }
      Mixed(b, len, hash, s[len], q, 3);
      hash := Xor(hash, Round(s[len], 3)); len := len + 1;
      q := q + 1;
    }
    assert len == |b|;
  }

  // ------------------------------------------------------------ sizes

  function Pow2(k: nat): (r: nat)
    ensures r >= 1
  {
    if k == 0 then 1 else 2 * Pow2(k - 1)
  }

  /** `log2(x)`: how often `x` can be halved before it is at most 1, so
      `2^r <= x < 2^(r+1)` for a positive `x`. */
  method Log2(x: nat) returns (r: nat)
    ensures x == 0 ==> r == 0
    ensures x >= 1 ==> Pow2(r) <= x < Pow2(r + 1)
  {
    var y := x;
    r := 0;
    while y > 1
      invariant y * Pow2(r) <= x < (y + 1) * Pow2(r)
      invariant x == 0 ==> r == 0 && y == 0
      invariant x >= 1 ==> y >= 1
    {
      HalvingBounds(x, y, Pow2(r));
      y := y / 2;
      r := r + 1;
    }
  }

  lemma HalvingBounds(x: nat, y: nat, p: nat)
    requires y * p <= x < (y + 1) * p
    ensures (y / 2) * (2 * p) <= x < (y / 2 + 1) * (2 * p)
  {
    var h := y / 2;
    assert y == 2 * h || y == 2 * h + 1;
    if y == 2 * h {
      assert (y / 2) * (2 * p) == y * p;
      assert (y + 1) * p <= (h + 1) * (2 * p);
    } else {
      assert (y / 2) * (2 * p) == y * p - p;
      assert (y + 1) * p == (h + 1) * (2 * p);
    }
  }

  /** `exp2ml(x)`: `2^x - 1`, the mask of the `x` low bits. */
  function Exp2ml(x: nat): (r: nat)
    requires x < 31
    ensures r + 1 == Pow2(x)
  {
    ShiftIsPow2(x);
    ((1 as bv32) << x) as int - 1
  }

  lemma {:induction false} ShiftIsPow2(x: nat)
    requires x < 31
    ensures ((1 as bv32) << x) as int == Pow2(x)
  {
    if x > 0 {
      ShiftIsPow2(x - 1);
      ShiftStep(x - 1);
    }
  }

  /** One more shift doubles the value while it stays below bit 31. */
  lemma ShiftStep(n: nat)
    requires n < 30
    ensures ((1 as bv32) << (n + 1)) as int == 2 * ((1 as bv32) << n) as int
  {
    var m := n as bv32;
    assert (1 as bv32) << (n + 1) == (1 as bv32) << (m + 1);
    assert (1 as bv32) << n == (1 as bv32) << m;
    ShiftStepWord(m);
  }

  lemma ShiftStepWord(m: bv32)
    requires m < 30
    ensures (1 as bv32) << (m + 1) == ((1 as bv32) << m) * 2
    ensures (1 as bv32) << m < 0x4000_0000
  { }

  const InitBucketCount: nat := 16

  /** The size the pool starts at and never shrinks below. */
  const InitialPoolSize: nat := 31

  /** `INITIAL_POOL_SIZE` as the source computes it,
      `exp2ml(1 + log2(kInitBucketCount))`. */
  method ComputeInitialPoolSize() returns (r: nat)
    ensures r == InitialPoolSize
  {
    var l := Log2(InitBucketCount);
    assert Pow2(4) == 16 && Pow2(5) == 32;
    Pow2Below(l, 5);
    Pow2Below(4, l + 1);
    r := Exp2ml(1 + l);
    assert Pow2(5) == 32;
  }

  /** Powers of two tell their exponents apart. */
  lemma Pow2Below(a: nat, b: nat)
    requires Pow2(a) < Pow2(b)
    ensures a < b
  {
    if b <= a {
      Pow2Monotone(b, a);
    }
  }

  lemma {:induction false} Pow2Monotone(a: nat, b: nat)
    requires a <= b
    ensures Pow2(a) <= Pow2(b)
    decreases b - a
  {
    if a < b {
      Pow2Monotone(a, b - 1);
    }
  }

  /** The number of entries in the buckets. */
  function Size(bs: seq<seq<Entry>>): nat
  {
    if |bs| == 0 then 0 else Size(bs[..|bs| - 1]) + |bs[|bs| - 1]|
  }

  /** The number of buckets that hold at least one entry. */
  function NonEmpty(bs: seq<seq<Entry>>): (r: nat)
    ensures r <= |bs|
  {
    if |bs| == 0 then 0 else NonEmpty(bs[..|bs| - 1]) + (if |bs[|bs| - 1]| > 0 then 1 else 0)
  }

  lemma {:induction false} SizeUpdate(bs: seq<seq<Entry>>, b: nat, x: seq<Entry>)
    requires b < |bs|
    ensures Size(bs[b := x]) == Size(bs) - |bs[b]| + |x|
    ensures NonEmpty(bs[b := x]) == NonEmpty(bs) - (if |bs[b]| > 0 then 1 else 0) + (if |x| > 0 then 1 else 0)
  {
    var n := |bs|;
    var cs := bs[b := x];
    if b < n - 1 {
      assert cs[..n - 1] == bs[..n - 1][b := x];
      SizeUpdate(bs[..n - 1], b, x);
    } else {
      assert cs[..n - 1] == bs[..n - 1];
    }
  }

  /** `n` empty buckets, as `bzero` leaves them. */
  function EmptyBuckets(n: nat): (r: seq<seq<Entry>>)
    ensures |r| == n && forall b :: 0 <= b < n ==> r[b] == []
  {
    seq(n, _ => [])
  }

  lemma {:induction false} SizeOfEmpty(n: nat)
    ensures Size(EmptyBuckets(n)) == 0
    ensures NonEmpty(EmptyBuckets(n)) == 0
  {
    if n > 0 {
      assert EmptyBuckets(n)[..n - 1] == EmptyBuckets(n - 1);
      SizeOfEmpty(n - 1);
    }
  }

  // ---------------------------------------------------- the stored table

  /** Every entry is a C string kept in the bucket of its hash. */
  ghost predicate Placed(bs: seq<seq<Entry>>)
  {
    forall b, k :: 0 <= b < |bs| && 0 <= k < |bs[b]| ==>
      NUL !in bs[b][k].text && Slot(bs[b][k].text, |bs|) == b
  }

  /** Every entry is the table's symbol for its text. */
  ghost predicate Recorded(bs: seq<seq<Entry>>, table: map<seq<CChar>, OSString>)
  {
    forall b, k :: 0 <= b < |bs| && 0 <= k < |bs[b]| ==>
      bs[b][k].text in table && table[bs[b][k].text] == bs[b][k].sym
  }

  /** Every text of the table has its entry in its bucket. */
  ghost predicate Complete(bs: seq<seq<Entry>>, table: map<seq<CChar>, OSString>)
  {
    |bs| > 0 && forall key :: key in table ==> Entry(table[key], key) in bs[Slot(key, |bs|)]
  }

  /** No text occurs twice in a bucket. */
  ghost predicate BucketsDistinct(bs: seq<seq<Entry>>)
  {
    forall b, i, j :: 0 <= b < |bs| && 0 <= i < j < |bs[b]| ==> bs[b][i].text != bs[b][j].text
  }

  /** No symbol stands for two texts. */
  ghost predicate Injective(table: map<seq<CChar>, OSString>)
  {
    forall k1, k2 :: k1 in table && k2 in table && k1 != k2 ==> table[k1] != table[k2]
  }

  /** The buckets hold exactly the table, one entry per text. */
  ghost predicate Stored(bs: seq<seq<Entry>>, table: map<seq<CChar>, OSString>)
  {
    Placed(bs) && Recorded(bs, table) && Complete(bs, table) && BucketsDistinct(bs) && Injective(table)
  }

  /** `n` empty buckets hold the empty table. */
  lemma EmptyStored(n: nat)
    requires n > 0
    ensures Stored(EmptyBuckets(n), map[])
  {
  }

  /** The texts of the table that a search by identity for `sym` in the
      bucket of `text` can meet: `sym`'s own text, if it hashes there. */
  ghost function Matches(table: map<seq<CChar>, OSString>, sym: OSString, n: nat, text: seq<CChar>): set<seq<CChar>>
    requires n > 0
  {
    set k | k in table && table[k] == sym && Slot(k, n) == Slot(text, n)
  }

  /** The entries of a bucket, apart from those of `sym`: the bucket after
      `removeSymbol`. */
  function Drop(bucket: seq<Entry>, sym: OSString): (r: seq<Entry>)
    ensures forall i :: 0 <= i < |r| ==> r[i] in bucket && r[i].sym != sym
    ensures forall i :: 0 <= i < |bucket| && bucket[i].sym != sym ==> bucket[i] in r
    ensures |r| <= |bucket|
  {
    if |bucket| == 0 then []
    else if bucket[0].sym == sym then Drop(bucket[1..], sym)
    else [bucket[0]] + Drop(bucket[1..], sym)
  }

  /** Removing the one entry of `sym`, at index `k`, keeps the others in
      their order. */
  lemma DropAt(bucket: seq<Entry>, sym: OSString, k: nat)
    requires k < |bucket| && bucket[k].sym == sym
    requires forall i :: 0 <= i < |bucket| && i != k ==> bucket[i].sym != sym
    ensures Drop(bucket, sym) == bucket[..k] + bucket[k + 1..]
  {
    var before, after := bucket[..k], bucket[k + 1..];
    assert bucket == before + ([bucket[k]] + after);
    DropConcat(before, [bucket[k]] + after, sym);
    DropConcat([bucket[k]], after, sym);
    assert forall e :: e in before ==> e.sym != sym;
    assert forall e :: e in after ==> e.sym != sym;
    DropNone(before, sym);
    DropNone(after, sym);
  }

  lemma {:induction false} DropConcat(a: seq<Entry>, b: seq<Entry>, sym: OSString)
    ensures Drop(a + b, sym) == Drop(a, sym) + Drop(b, sym)
  {
    if |a| == 0 {
      assert a + b == b;
    } else {
      assert (a + b)[0] == a[0] && (a + b)[1..] == a[1..] + b;
      DropConcat(a[1..], b, sym);
    }
  }

  lemma {:induction false} DropNone(bucket: seq<Entry>, sym: OSString)
    requires forall e :: e in bucket ==> e.sym != sym
    ensures Drop(bucket, sym) == bucket
  {
    if |bucket| > 0 {
      assert forall e :: e in bucket[1..] ==> e in bucket;
      DropNone(bucket[1..], sym);
      assert bucket == [bucket[0]] + bucket[1..];
    }
  }

  /** A text missing from its bucket is missing from the table. */
  lemma NotInBucket(bs: seq<seq<Entry>>, table: map<seq<CChar>, OSString>, key: seq<CChar>)
    requires Stored(bs, table)
    requires forall k :: 0 <= k < |bs[Slot(key, |bs|)]| ==> bs[Slot(key, |bs|)][k].text != key
    ensures key !in table
  {
  }

  /** The buckets with `e` inserted at the front of its own. */
  function InsertedFront(bs: seq<seq<Entry>>, e: Entry): seq<seq<Entry>>
    requires |bs| > 0
  {
    bs[Slot(e.text, |bs|) := [e] + bs[Slot(e.text, |bs|)]]
  }

  /** Inserting a new text at the front of its bucket stores the table
      extended by it. */
  lemma InsertFront(bs: seq<seq<Entry>>, table: map<seq<CChar>, OSString>, e: Entry)
    requires Stored(bs, table) && NUL !in e.text
    requires e.text !in table && e.sym !in table.Values
    ensures Stored(InsertedFront(bs, e), table[e.text := e.sym])
  {
    InsertFrontPlaced(bs, table, e);
    InsertFrontComplete(bs, table, e);
    var t := table[e.text := e.sym];
    assert Injective(t) by {
      forall k1, k2 | k1 in t && k2 in t && k1 != k2 ensures t[k1] != t[k2] {
        if k1 == e.text { assert t[k2] in table.Values; }
        else if k2 == e.text { assert t[k1] in table.Values; }
      }
    }
  }

  lemma InsertFrontPlaced(bs: seq<seq<Entry>>, table: map<seq<CChar>, OSString>, e: Entry)
    requires Stored(bs, table) && NUL !in e.text && e.text !in table
    ensures Placed(InsertedFront(bs, e)) && Recorded(InsertedFront(bs, e), table[e.text := e.sym])
    ensures BucketsDistinct(InsertedFront(bs, e))
  {
    var s := Slot(e.text, |bs|);
    var cs: seq<seq<Entry>> := InsertedFront(bs, e);
    var t := table[e.text := e.sym];
    forall b, k | 0 <= b < |cs| && 0 <= k < |cs[b]|
      ensures NUL !in cs[b][k].text && Slot(cs[b][k].text, |cs|) == b
      ensures cs[b][k].text in t && t[cs[b][k].text] == cs[b][k].sym
    {
      if b == s && k > 0 { assert cs[b][k] == bs[b][k - 1]; }
    }
    forall b, i, j | 0 <= b < |cs| && 0 <= i < j < |cs[b]|
      ensures cs[b][i].text != cs[b][j].text
    {
      if b == s {
        assert cs[b][j] == bs[b][j - 1];
        if i > 0 { assert cs[b][i] == bs[b][i - 1]; }
        else { assert bs[b][j - 1].text in table; }
      }
    }
  }

  lemma InsertFrontComplete(bs: seq<seq<Entry>>, table: map<seq<CChar>, OSString>, e: Entry)
    requires Stored(bs, table)
    ensures Complete(InsertedFront(bs, e), table[e.text := e.sym])
  {
    var s := Slot(e.text, |bs|);
    var cs: seq<seq<Entry>> := InsertedFront(bs, e);
    var t := table[e.text := e.sym];
    forall key | key in t ensures Entry(t[key], key) in cs[Slot(key, |cs|)] {
      if key != e.text {
        var b := Slot(key, |bs|);
        assert Entry(table[key], key) in bs[b];
        if b == s {
          assert bs[b] <= cs[b][1..];
        }
      } else {
        assert cs[s][0] == e;
      }
    }
  }

  /** The buckets with entry `k` of bucket `b` taken out. */
  function TakenOut(bs: seq<seq<Entry>>, b: nat, k: nat): seq<seq<Entry>>
    requires b < |bs| && k < |bs[b]|
  {
    bs[b := bs[b][..k] + bs[b][k + 1..]]
  }

  /** Removing the entry at index `k` of bucket `b` stores the table
      without its text. */
  lemma RemoveAt(bs: seq<seq<Entry>>, table: map<seq<CChar>, OSString>, b: nat, k: nat)
    requires Stored(bs, table) && b < |bs| && k < |bs[b]|
    ensures Stored(TakenOut(bs, b, k), table - {bs[b][k].text})
  {
    RemoveAtEntries(bs, table, b, k);
    RemoveAtComplete(bs, table, b, k);
  }

  lemma RemoveAtEntries(bs: seq<seq<Entry>>, table: map<seq<CChar>, OSString>, b: nat, k: nat)
    requires Stored(bs, table) && b < |bs| && k < |bs[b]|
    ensures Placed(TakenOut(bs, b, k)) && Recorded(TakenOut(bs, b, k), table - {bs[b][k].text})
    ensures BucketsDistinct(TakenOut(bs, b, k))
  {
    RemoveAtRecorded(bs, table, b, k);
    RemoveAtDistinct(bs, table, b, k);
  }

  /** Entry `i` of the bucket an entry was taken out of. */
  lemma TakenOutAt(bs: seq<seq<Entry>>, b: nat, k: nat, i: nat)
    requires b < |bs| && k < |bs[b]| && i < |bs[b]| - 1
    ensures |TakenOut(bs, b, k)[b]| == |bs[b]| - 1
    ensures TakenOut(bs, b, k)[b][i] == bs[b][if i < k then i else i + 1]
  {
  }

  lemma RemoveAtRecorded(bs: seq<seq<Entry>>, table: map<seq<CChar>, OSString>, b: nat, k: nat)
    requires Stored(bs, table) && b < |bs| && k < |bs[b]|
    ensures Placed(TakenOut(bs, b, k)) && Recorded(TakenOut(bs, b, k), table - {bs[b][k].text})
  {
    var e := bs[b][k];
    var cs: seq<seq<Entry>> := TakenOut(bs, b, k);
    var t := table - {e.text};
    forall c, i | 0 <= c < |cs| && 0 <= i < |cs[c]|
      ensures NUL !in cs[c][i].text && Slot(cs[c][i].text, |cs|) == c
      ensures cs[c][i].text in t && t[cs[c][i].text] == cs[c][i].sym
    {
      if c == b {
        TakenOutAt(bs, b, k, i);
      }
    }
  }

  lemma RemoveAtDistinct(bs: seq<seq<Entry>>, table: map<seq<CChar>, OSString>, b: nat, k: nat)
    requires Stored(bs, table) && b < |bs| && k < |bs[b]|
    ensures BucketsDistinct(TakenOut(bs, b, k))
  {
    var cs: seq<seq<Entry>> := TakenOut(bs, b, k);
    forall c, i, j | 0 <= c < |cs| && 0 <= i < j < |cs[c]|
      ensures cs[c][i].text != cs[c][j].text
    {
      if c == b {
        TakenOutAt(bs, b, k, i);
        TakenOutAt(bs, b, k, j);
      }
    }
  }

  lemma RemoveAtComplete(bs: seq<seq<Entry>>, table: map<seq<CChar>, OSString>, b: nat, k: nat)
    requires Stored(bs, table) && b < |bs| && k < |bs[b]|
    ensures Complete(TakenOut(bs, b, k), table - {bs[b][k].text})
  {
    var nb := bs[b][..k] + bs[b][k + 1..];
    var cs: seq<seq<Entry>> := TakenOut(bs, b, k);
    var t := table - {bs[b][k].text};
    forall key | key in t ensures Entry(t[key], key) in cs[Slot(key, |cs|)] {
      var c := Slot(key, |bs|);
      var i :| 0 <= i < |bs[c]| && bs[c][i] == Entry(table[key], key);
      if c == b {
        assert i != k;
        assert nb[if i < k then i else i - 1] == bs[b][i];
      }
    }
  }


  /** In a stored table a symbol has at most one entry in a bucket. */
  lemma SymbolOnce(bs: seq<seq<Entry>>, table: map<seq<CChar>, OSString>, b: nat, i: nat, j: nat)
    requires Stored(bs, table) && b < |bs| && i < |bs[b]| && j < |bs[b]|
    requires bs[b][i].sym == bs[b][j].sym
    ensures i == j
  {
  }

  // ------------------------------------------------------- enumeration

  /** The cursor of `nextHashState`: bucket `i`, of which the first `j`
      entries are still to be visited. */
  datatype HashState = HashState(i: nat, j: nat)

  ghost predicate StateValid(bs: seq<seq<Entry>>, st: HashState)
  {
    st.i <= |bs| && (st.i == |bs| ==> st.j == 0) && (st.i < |bs| ==> st.j <= |bs[st.i]|)
  }

  /** The entries of buckets `i - 1` down to 0, each bucket from its last
      entry to its first. */
  function Below(bs: seq<seq<Entry>>, i: nat): seq<Entry>
    requires i <= |bs|
  {
    if i == 0 then [] else Reverse(bs[i - 1]) + Below(bs, i - 1)
  }

  /** Every entry, in the order `nextHashState` visits them. */
  function Enumeration(bs: seq<seq<Entry>>): seq<Entry>
  {
    Below(bs, |bs|)
  }

  /** The entries a cursor has still to visit. */
  function Remaining(bs: seq<seq<Entry>>, st: HashState): seq<Entry>
    requires StateValid(bs, st)
  {
    (if st.i < |bs| then Reverse(bs[st.i][..st.j]) else []) + Below(bs, st.i)
  }

  /** Moving to the bucket below, when the current one is used up, skips
      nothing. */
  lemma RemainingDown(bs: seq<seq<Entry>>, i: nat)
    requires 0 < i <= |bs| && StateValid(bs, HashState(i, 0))
    ensures StateValid(bs, HashState(i - 1, |bs[i - 1]|))
    ensures Remaining(bs, HashState(i, 0)) == Remaining(bs, HashState(i - 1, |bs[i - 1]|))
  {
    assert bs[i - 1][..|bs[i - 1]|] == bs[i - 1];
    if i < |bs| {
      assert Reverse(bs[i][..0]) == [];
    }
  }

  /** The cursor `nextHashState` leaves behind at the end has nothing
      left to visit. */
  lemma RemainingAtEnd(bs: seq<seq<Entry>>)
    ensures StateValid(bs, HashState(0, 0)) && Remaining(bs, HashState(0, 0)) == []
  {
    if |bs| > 0 {
      assert bs[0][..0] == [];
    }
  }

  /** Taking entry `j - 1` of the current bucket takes the first of the
      entries remaining. */
  lemma RemainingTake(bs: seq<seq<Entry>>, i: nat, j: nat)
    requires i < |bs| && 0 < j <= |bs[i]|
    ensures Remaining(bs, HashState(i, j)) == [bs[i][j - 1]] + Remaining(bs, HashState(i, j - 1))
  {
    var s := bs[i][..j];
    assert s[..j - 1] == bs[i][..j - 1];
    assert Reverse(s) == [s[j - 1]] + Reverse(s[..j - 1]);
  }

  /** Texts that occur once each in a list of entries. */
  ghost predicate TextsDistinct(es: seq<Entry>)
  {
    forall p, q :: 0 <= p < q < |es| ==> es[p].text != es[q].text
  }

  /** `Below` lists exactly the entries of the buckets below `i`. */
  lemma {:induction false} BelowMembers(bs: seq<seq<Entry>>, i: nat)
    requires i <= |bs|
    ensures forall e :: e in Below(bs, i) ==> exists b :: 0 <= b < i && e in bs[b]
    ensures forall b, e :: 0 <= b < i && e in bs[b] ==> e in Below(bs, i)
    ensures |Below(bs, i)| == Size(bs[..i])
  {
    if i > 0 {
      BelowMembers(bs, i - 1);
      var r := Reverse(bs[i - 1]);
      forall e ensures e in r <==> e in bs[i - 1] {
        if e in bs[i - 1] {
          var k :| 0 <= k < |bs[i - 1]| && bs[i - 1][k] == e;
          assert r[|bs[i - 1]| - 1 - k] == e;
        }
      }
      assert bs[..i][..i - 1] == bs[..i - 1];
    }
  }

  /** Two lists without repeated texts and without texts in common
      make one without repeated texts. */
  lemma DistinctConcat(a: seq<Entry>, b: seq<Entry>)
    requires TextsDistinct(a) && TextsDistinct(b)
    requires forall x, y :: x in a && y in b ==> x.text != y.text
    ensures TextsDistinct(a + b)
  {
    var all := a + b;
    forall p, q | 0 <= p < q < |all| ensures all[p].text != all[q].text {
      if q < |a| {
        assert all[p] == a[p] && all[q] == a[q];
      } else if p < |a| {
        assert all[p] == a[p] && all[q] == b[q - |a|];
      } else {
        assert all[p] == b[p - |a|] && all[q] == b[q - |a|];
      }
    }
  }

  /** A bucket read backwards still holds only its own slot's texts, each
      once. */
  lemma ReversedBucket(bs: seq<seq<Entry>>, b: nat)
    requires Placed(bs) && BucketsDistinct(bs) && b < |bs|
    ensures forall x :: x in Reverse(bs[b]) ==> Slot(x.text, |bs|) == b
    ensures TextsDistinct(Reverse(bs[b]))
  {
    var r, m := Reverse(bs[b]), |bs[b]|;
    forall x | x in r ensures Slot(x.text, |bs|) == b {
      var p :| 0 <= p < m && r[p] == x;
      assert r[p] == bs[b][m - 1 - p];
    }
    forall p, q | 0 <= p < q < m ensures r[p].text != r[q].text {
      assert r[p] == bs[b][m - 1 - p] && r[q] == bs[b][m - 1 - q];
    }
  }

  /** In placed buckets `Below` never repeats a text. */
  lemma {:induction false} BelowDistinct(bs: seq<seq<Entry>>, i: nat)
    requires Placed(bs) && BucketsDistinct(bs) && i <= |bs|
    ensures TextsDistinct(Below(bs, i))
    ensures forall e :: e in Below(bs, i) ==> Slot(e.text, |bs|) < i
  {
    if i > 0 {
      BelowDistinct(bs, i - 1);
      var r: seq<Entry>, rest: seq<Entry> := Reverse(bs[i - 1]), Below(bs, i - 1);
      ReversedBucket(bs, i - 1);
      DistinctConcat(r, rest);
      forall e | e in r + rest ensures Slot(e.text, |bs|) < i {
        if e !in r {
          assert e in rest;
        }
      }
    }
  }

  /** What a resize relies on: the enumeration of a stored table visits
      each of its entries once, and nothing else. */
  lemma EnumerationVisitsAll(bs: seq<seq<Entry>>, table: map<seq<CChar>, OSString>)
    requires Stored(bs, table)
    ensures |Enumeration(bs)| == Size(bs)
    ensures TextsDistinct(Enumeration(bs))
    ensures forall e :: e in Enumeration(bs) ==> NUL !in e.text && e.text in table && table[e.text] == e.sym
    ensures forall key :: key in table ==> Entry(table[key], key) in Enumeration(bs)
  {
    BelowMembers(bs, |bs|);
    BelowDistinct(bs, |bs|);
    assert bs[..|bs|] == bs;
    forall e | e in Enumeration(bs) ensures NUL !in e.text && e.text in table && table[e.text] == e.sym {
      assert e in Below(bs, |bs|);
      var b :| 0 <= b < |bs| && e in bs[b];
      var k :| 0 <= k < |bs[b]| && bs[b][k] == e;
    }
  }

  // -------------------------------------------------------- resizing

  lemma GrowLevel(n: nat, level: nat)
    requires n + 1 == Pow2(level)
    ensures (n + n + 1) + 1 == Pow2(level + 1)
  {
  }

  lemma ShrinkLevel(n: nat, level: nat)
    requires n + 1 == Pow2(level) && level >= 5 && n > InitialPoolSize
    ensures level >= 6 && (n - 1) / 2 + 1 == Pow2(level - 1) && (n - 1) / 2 >= InitialPoolSize
  {
    assert Pow2(5) == 32;
    Pow2Monotone(5, level - 1);
  }

  lemma AtLeastInitial(n: nat, level: nat)
    requires n + 1 == Pow2(level) && level >= 5
    ensures n >= InitialPoolSize
  {
    assert Pow2(5) == 32;
    Pow2Monotone(5, level);
  }

  /** Where a rebuild stands: the entries `rest` still to re-insert and the
      table refilled so far make up the old table `t0` of `c0` entries. */
  ghost predicate Refilling(t0: map<seq<CChar>, OSString>, c0: nat, rest: seq<Entry>,
                            table: map<seq<CChar>, OSString>, count: nat)
  {
    Injective(t0) && TextsDistinct(rest) && count + |rest| == c0 &&
    (forall e :: e in rest ==> NUL !in e.text && e.text in t0 && t0[e.text] == e.sym && e.text !in table) &&
    (forall key :: key in t0 ==> key in table || Entry(t0[key], key) in rest) &&
    (forall key :: key in table ==> key in t0 && table[key] == t0[key])
  }

  lemma RefillStart(bs: seq<seq<Entry>>, t0: map<seq<CChar>, OSString>)
    requires Stored(bs, t0)
    ensures Refilling(t0, Size(bs), Enumeration(bs), map[], 0)
  {
    EnumerationVisitsAll(bs, t0);
  }

  /** Re-inserting the next entry keeps the rebuild on track; the entry is
      new to the refilled table and so is its symbol. */
  lemma RefillStep(t0: map<seq<CChar>, OSString>, c0: nat, rest: seq<Entry>,
                   table: map<seq<CChar>, OSString>, count: nat)
    requires Refilling(t0, c0, rest, table, count) && |rest| > 0
    ensures NUL !in rest[0].text && rest[0].text !in table && rest[0].sym !in table.Values
    ensures Refilling(t0, c0, rest[1..], table[rest[0].text := rest[0].sym], count + 1)
  {
    var e := rest[0];
    assert e in rest;
    var t := table[e.text := e.sym];
    forall x | x in rest[1..] ensures x.text != e.text && x in rest {
      var q :| 0 <= q < |rest[1..]| && rest[1..][q] == x;
      assert rest[q + 1] == x;
    }
    forall key | key in t0 ensures key in t || Entry(t0[key], key) in rest[1..] {
      if key !in t {
        assert Entry(t0[key], key) in rest && Entry(t0[key], key) != e;
        assert rest == [e] + rest[1..];
      }
    }
  }

  lemma RefillDone(t0: map<seq<CChar>, OSString>, c0: nat, table: map<seq<CChar>, OSString>, count: nat)
    requires Refilling(t0, c0, [], table, count)
    ensures table == t0 && count == c0
  {
    assert table.Keys == t0.Keys;
  }

  /** The texts a search by identity meets in a stored table: the one of
      the entry found, or none. */
  lemma MatchesIn(bs: seq<seq<Entry>>, table: map<seq<CChar>, OSString>, sym: OSString, text: seq<CChar>, s: nat, k: nat)
    requires Stored(bs, table) && |bs| > 0 && s == Slot(text, |bs|)
    requires k <= |bs[s]|
    requires forall i :: 0 <= i < k ==> bs[s][i].sym != sym
    requires k < |bs[s]| ==> bs[s][k].sym == sym
    ensures k == |bs[s]| ==> Matches(table, sym, |bs|, text) == {} && Drop(bs[s], sym) == bs[s]
    ensures k < |bs[s]| ==> Matches(table, sym, |bs|, text) == {bs[s][k].text}
    ensures k < |bs[s]| ==> Drop(bs[s], sym) == bs[s][..k] + bs[s][k + 1..]
  {
    var bucket := bs[s];
    var m := Matches(table, sym, |bs|, text);
    if k == |bucket| {
      assert m == {};
      assert forall e :: e in bucket ==> e.sym != sym;
      DropNone(bucket, sym);
    } else {
      var key := bucket[k].text;
      assert key in m;
      forall other | other in m ensures other == key {
        var i :| 0 <= i < |bucket| && bucket[i] == Entry(table[other], other);
        SymbolOnce(bs, table, s, i, k);
      }
      forall i | 0 <= i < |bucket| && i != k ensures bucket[i].sym != sym {
        if bucket[i].sym == sym { SymbolOnce(bs, table, s, i, k); }
      }
      DropAt(bucket, sym, k);
    }
  }

  /** The comparison `findSymbol` and `insertSymbol` make with each probe:
      equal lengths, then `strncmp` over the probe's length. */
  function SameText(probe: Entry, cString: seq<CChar>, inLen: nat): (r: bool)
    requires NUL !in probe.text && NUL in cString && inLen == StrLen(cString) + 1
    ensures r <==> probe.text == CStr(cString)
  {
    var x := probe.text + [NUL];
    assert x[..|x| - 1] == probe.text;
    StrNEqMeansSameCString(x, cString, |x|);
    inLen == |x| && StrNEq(x, cString, |x|)
  }

  // -------------------------------------------------------- the pool

  class OSSymbolPool {
    var buckets: array<seq<Entry>>
    var nBuckets: nat
    var count: nat
    ghost var table: map<seq<CChar>, OSString>  // each pooled text and its symbol
    ghost var level: nat                        // nBuckets + 1 == 2^level

    /** The buckets hold exactly `table`, and `count` entries. */
    ghost predicate Core()
      reads this, buckets
    {
      nBuckets == buckets.Length && nBuckets + 1 == Pow2(level) && level >= 5 &&
      Stored(buckets[..], table) && count == Size(buckets[..])
    }

    /** Beyond one entry per bucket, at most `nBuckets` entries more: what
        checking for growth only after inserting into a non-empty bucket
        keeps. */
    ghost predicate Valid()
      reads this, buckets
    {
      Core() && count <= nBuckets + NonEmpty(buckets[..])
    }

    /** `new OSSymbolPool` and `init`: `INITIAL_POOL_SIZE` empty buckets. */
    constructor Init()
      ensures Valid() && fresh(buckets)
      ensures count == 0 && nBuckets == InitialPoolSize && table == map[]
      ensures forall b :: 0 <= b < nBuckets ==> buckets[b] == []
    {
      var n := ComputeInitialPoolSize();
      count := 0;
      nBuckets := n;
      buckets := new seq<Entry>[n](_ => []);
      table := map[];
      level := 5;
      new;
      assert buckets[..] == EmptyBuckets(n);
      EmptyStored(n);
      SizeOfEmpty(n);
      assert Pow2(5) == 32;
    }

    /** `OSSymbolPool(const OSSymbolPool *old)`: a second pool over the
        same buckets. */
    constructor Copy(prev: OSSymbolPool)
      requires prev.Core()
      ensures count == prev.count && nBuckets == prev.nBuckets && buckets == prev.buckets
      ensures table == prev.table && level == prev.level
      ensures Core()
    {
      count := prev.count;
      nBuckets := prev.nBuckets;
      buckets := prev.buckets;
      table := prev.table;
      level := prev.level;
    }

    /** `initHashState`: a cursor before every entry. */
    function InitHashState(): (st: HashState)
      requires nBuckets == buckets.Length
      reads this, buckets
      ensures StateValid(buckets[..], st)
      ensures Remaining(buckets[..], st) == Enumeration(buckets[..])
    {
      HashState(nBuckets, 0)
    }

    /** `nextHashState`: the next entry, from the last bucket to the first
        and within a bucket from its last entry to its first; none once
        every entry was visited. */
    method NextHashState(st: HashState) returns (r: Option<Entry>, next: HashState)
      requires nBuckets == buckets.Length && StateValid(buckets[..], st)
      ensures StateValid(buckets[..], next)
      ensures r == None <==> Remaining(buckets[..], st) == []
      ensures r.Some? ==> Remaining(buckets[..], st) == [r.value] + Remaining(buckets[..], next)
      ensures r == None ==> next == HashState(0, 0)
    {
      ghost var bs := buckets[..];
      var i: nat, j: nat := st.i, st.j;
      while j == 0
        invariant StateValid(bs, HashState(i, j))
        invariant Remaining(bs, HashState(i, j)) == Remaining(bs, st)
        decreases i
      {
        if i == 0 {
          return None, HashState(0, 0);
        }
        RemainingDown(bs, i);
        i := i - 1;
        j := |buckets[i]|;
      }
      RemainingTake(bs, i, j);
      j := j - 1;
      r, next := Some(buckets[i][j]), HashState(i, j);
    }

    /** `findSymbol`: the pooled symbol whose text is the C string `cString`,
        or null. */
    method FindSymbol(cString: seq<CChar>) returns (r: OSString?)
      requires Valid() && NUL in cString
      ensures r != null <==> CStr(cString) in table
      ensures r != null ==> r == table[CStr(cString)]
    {
      var hash, inLen := HashSymbol(cString);
      inLen := inLen + 1;
      var bucket := buckets[hash % nBuckets];
      ghost var key := CStr(cString);
      assert bucket == buckets[..][Slot(key, nBuckets)];
      var j := 0;
      while j < |bucket|
        invariant j <= |bucket|
        invariant forall i :: 0 <= i < j ==> bucket[i].text != key
      {
        assert NUL !in bucket[j].text;
        if SameText(bucket[j], cString, inLen) {
          return bucket[j].sym;
        }
        j := j + 1;
      }
      NotInBucket(buckets[..], table, key);
      r := null;
    }

    /** `insertSymbol` up to its check for growth: the existing symbol of
        the same text, or `e` put first in its bucket. `nonEmpty` says
        whether the bucket already held entries, the one case that goes on
        to check for growth. */
    method InsertEntry(e: Entry) returns (r: OSString, nonEmpty: bool)
      requires Core() && NUL !in e.text && e.sym !in table.Values
      modifies buckets, this`count, this`table
      ensures Core()
      ensures e.text in old(table) ==>
        r == old(table)[e.text] && !nonEmpty && table == old(table) && count == old(count) &&
        buckets[..] == old(buckets[..])
      ensures e.text !in old(table) ==>
        r == e.sym && table == old(table)[e.text := e.sym] && count == old(count) + 1 &&
        buckets[..] == old(buckets[..])[Slot(e.text, nBuckets) := [e] + old(buckets[Slot(e.text, nBuckets)])] &&
        nonEmpty == (|old(buckets[Slot(e.text, nBuckets)])| > 0)
    {
      var cString := e.text + [NUL];
      CStrOfTerminated(e.text, []);
      assert cString == e.text + [NUL] + [];
      var hash, inLen := HashSymbol(cString);
      inLen := inLen + 1;
      var b := hash % nBuckets;
      var bucket := buckets[b];
      assert bucket == buckets[..][Slot(e.text, nBuckets)];
      var j := 0;
      while j < |bucket|
        invariant j <= |bucket|
        invariant forall i :: 0 <= i < j ==> bucket[i].text != e.text
      {
        assert NUL !in bucket[j].text;
        if SameText(bucket[j], cString, inLen) {
          return bucket[j].sym, false;
        }
        j := j + 1;
      }
      NotInBucket(buckets[..], table, e.text);
      InsertFront(buckets[..], table, e);
      SizeUpdate(buckets[..], b, [e] + bucket);
      buckets[b] := [e] + bucket;
      count := count + 1;
      table := table[e.text := e.sym];
      r, nonEmpty := e.sym, |bucket| > 0;
    }

    /** `insertSymbol`: as `InsertEntry`, then, after inserting into a
        non-empty bucket, `GROW_POOL`: rebuild with `2n + 1` buckets once
        there are more symbols than buckets. */
    method InsertSymbol(e: Entry) returns (r: OSString)
      requires Valid() && NUL !in e.text && e.sym !in table.Values
      modifies this, buckets
      ensures Valid()
      ensures e.text in old(table) ==>
        r == old(table)[e.text] && table == old(table) && count == old(count) &&
        nBuckets == old(nBuckets) && buckets == old(buckets) && buckets[..] == old(buckets[..])
      ensures e.text !in old(table) ==> r == e.sym && table == old(table)[e.text := e.sym] && count == old(count) + 1
      ensures nBuckets == if e.text !in old(table) && |old(buckets[Slot(e.text, nBuckets)])| > 0 && old(count) + 1 > old(nBuckets)
                          then 2 * old(nBuckets) + 1 else old(nBuckets)
      ensures nBuckets == old(nBuckets) ==> buckets == old(buckets)
      ensures nBuckets == old(nBuckets) && e.text !in old(table) ==>
        buckets[..] == old(buckets[..])[Slot(e.text, nBuckets) := [e] + old(buckets[Slot(e.text, nBuckets)])]
      ensures nBuckets != old(nBuckets) ==> fresh(buckets)
    {
      ghost var before := buckets[..];
      var nonEmpty;
      r, nonEmpty := InsertEntry(e);
      if e.text !in old(table) {
        SizeUpdate(before, Slot(e.text, nBuckets), [e] + before[Slot(e.text, nBuckets)]);
      }
      if nonEmpty && count > nBuckets {
        ReconstructSymbols(true);
      }
    }

    /** `reconstructSymbols(grow)`: the same symbols in `2n + 1` buckets, or
        in `(n - 1) / 2` unless the pool is at its initial size. Every entry
        is re-inserted through the enumeration of a copy of the old pool.
        The callers' checks keep the symbols within the new number of
        buckets, so no re-insertion triggers a further rebuild. */
    method ReconstructSymbols(grow: bool)
      requires Core()
      requires grow ==> count <= 2 * nBuckets + 1
      requires !grow ==> 3 * count < nBuckets
      modifies this
      ensures Valid() && table == old(table) && count == old(count)
      ensures nBuckets == if grow then 2 * old(nBuckets) + 1
                          else if old(nBuckets) <= InitialPoolSize then old(nBuckets)
                          else (old(nBuckets) - 1) / 2
      ensures nBuckets >= InitialPoolSize
      ensures nBuckets == old(nBuckets) ==> buckets == old(buckets)
      ensures nBuckets != old(nBuckets) ==> fresh(buckets)
    {
      AtLeastInitial(nBuckets, level);
      var newN := nBuckets;
      ghost var newLevel := level;
      if grow {
        newN := newN + newN + 1;
        GrowLevel(nBuckets, level);
        newLevel := level + 1;
      } else {
        if nBuckets <= InitialPoolSize {
          return;
        }
        ShrinkLevel(nBuckets, level);
        newN := (newN - 1) / 2;
        newLevel := level - 1;
      }
      var prev := new OSSymbolPool.Copy(this);
      Reset(newN, newLevel);
      Refill(prev);
      AtLeastInitial(nBuckets, level);
    }

    /** Empty fresh buckets, `n` of them. */
    method Reset(n: nat, ghost newLevel: nat)
      requires n + 1 == Pow2(newLevel) && newLevel >= 5
      modifies this
      ensures Core() && fresh(buckets) && nBuckets == n && level == newLevel
      ensures table == map[] && count == 0
    {
      count := 0;
      nBuckets := n;
      buckets := new seq<Entry>[n](_ => []);
      table := map[];
      level := newLevel;
      assert buckets[..] == EmptyBuckets(n);
      EmptyStored(n);
      SizeOfEmpty(n);
    }

    /** The loop of `reconstructSymbols`: every entry of `prev`, in the
        order of its enumeration, re-inserted. */
    method Refill(prev: OSSymbolPool)
      requires prev.Core() && prev != this && prev.buckets != buckets
      requires Core() && table == map[] && count == 0 && prev.count <= nBuckets
      modifies this`count, this`table, buckets
      ensures Valid() && table == prev.table && count == prev.count
    {
      ghost var t0, c0, bs0 := prev.table, prev.count, prev.buckets[..];
      RefillStart(bs0, t0);
      var st := prev.InitHashState();
      while true
        invariant Core() && StateValid(bs0, st)
        invariant Refilling(t0, c0, Remaining(bs0, st), table, count)
        decreases |Remaining(bs0, st)|
      {
        var next;
        next, st := prev.NextHashState(st);
        if next.None? {
          break;
        }
        ghost var rest := Remaining(bs0, st);
        RefillStep(t0, c0, [next.value] + rest, table, count);
        assert ([next.value] + rest)[1..] == rest;
        var r, nonEmpty := InsertEntry(next.value);
        assert !(nonEmpty && count > nBuckets);
      }
      RefillDone(t0, c0, table, count);
    }

    /** The search of `removeSymbol`: the bucket of `text` and the
        position of `sym` in it, or the bucket's length. */
    method Locate(sym: OSString, text: seq<CChar>) returns (b: nat, k: nat)
      requires Core() && NUL !in text
      ensures b == Slot(text, nBuckets) && k <= |buckets[b]|
      ensures forall i :: 0 <= i < k ==> buckets[b][i].sym != sym
      ensures k < |buckets[b]| ==> buckets[b][k].sym == sym
    {
      var cString := text + [NUL];
      CStrOfTerminated(text, []);
      assert cString == text + [NUL] + [];
      var hash, inLen := HashSymbol(cString);
      b := hash % nBuckets;
      var bucket := buckets[b];
      k := 0;
      while k < |bucket| && bucket[k].sym != sym
        invariant k <= |bucket|
        invariant forall i :: 0 <= i < k ==> bucket[i].sym != sym
      {
        k := k + 1;
      }
    }

    /** `removeSymbol` up to its check for shrinking: the entry of `sym`
        in the bucket of `text` is taken out, the others keep their order.
        `small` says whether the bucket held one or two entries, the cases
        that go on to check for shrinking. */
    method RemoveEntry(sym: OSString, text: seq<CChar>) returns (removed: bool, small: bool)
      requires Core() && NUL !in text
      modifies buckets, this`count, this`table
      ensures Core()
      ensures table == old(table) - Matches(old(table), sym, nBuckets, text)
      ensures removed <==> Matches(old(table), sym, nBuckets, text) != {}
      ensures count == old(count) - (if removed then 1 else 0)
      ensures buckets[..] == old(buckets[..])[Slot(text, nBuckets) := Drop(old(buckets[Slot(text, nBuckets)]), sym)]
      ensures small <==> |old(buckets[Slot(text, nBuckets)])| <= 2
    {
      ghost var bs := buckets[..];
      var b, k := Locate(sym, text);
      var bucket := buckets[b];
      small := |bucket| <= 2;
      MatchesIn(bs, table, sym, text, b, k);
      if k == |bucket| {
        assert bs == bs[b := bucket];
        return false, small;
      }
      ghost var m := Matches(table, sym, nBuckets, text);
      assert m == {bucket[k].text};
      TakeOut(b, k);
      assert buckets[..] == bs[b := bucket[..k] + bucket[k + 1..]];
      assert table == old(table) - m;
      removed := true;
    }

    /** Entry `k` of bucket `b` taken out of the pool. */
    method TakeOut(b: nat, k: nat)
      requires Core() && b < nBuckets && k < |buckets[b]|
      modifies buckets, this`count, this`table
      ensures Core()
      ensures buckets[..] == old(buckets[..])[b := old(buckets[b])[..k] + old(buckets[b])[k + 1..]]
      ensures table == old(table) - {old(buckets[b][k].text)} && count == old(count) - 1
    {
      ghost var bs := buckets[..];
      var bucket := buckets[b];
      var shorter := bucket[..k] + bucket[k + 1..];
      RemoveAt(bs, table, b, k);
      SizeUpdate(bs, b, shorter);
      buckets[b] := shorter;
      assert buckets[..] == bs[b := shorter];
      count := count - 1;
      table := table - {bucket[k].text};
    }

    /** `removeSymbol`: as `RemoveEntry`, then, after removing from a
        bucket of one or two entries, `SHRINK_POOL`: rebuild with
        `(n - 1) / 2` buckets when the symbols fill less than a third of
        the buckets and the pool is above its initial size. */
    method RemoveSymbol(sym: OSString, text: seq<CChar>)
      requires Valid() && NUL !in text
      modifies this, buckets
      ensures Valid()
      ensures table == old(table) - Matches(old(table), sym, old(nBuckets), text)
      ensures count == old(count) - |Matches(old(table), sym, old(nBuckets), text)|
      ensures nBuckets == if Matches(old(table), sym, old(nBuckets), text) != {} &&
                             |old(buckets[Slot(text, nBuckets)])| <= 2 &&
                             3 * count < old(nBuckets) && old(nBuckets) > InitialPoolSize
                          then (old(nBuckets) - 1) / 2 else old(nBuckets)
      ensures nBuckets == old(nBuckets) ==>
        buckets == old(buckets) &&
        buckets[..] == old(buckets[..])[Slot(text, nBuckets) := Drop(old(buckets[Slot(text, nBuckets)]), sym)]
      ensures nBuckets != old(nBuckets) ==> fresh(buckets)
    {
      ghost var before := buckets[..];
      MatchesOne(before, table, sym, text);
      var removed, small := RemoveEntry(sym, text);
      SizeUpdate(before, Slot(text, nBuckets), Drop(before[Slot(text, nBuckets)], sym));
      if removed && small && count * 3 < nBuckets && nBuckets > InitialPoolSize {
        ReconstructSymbols(false);
      }
    }
  }

  /** A search by identity meets at most one text. */
  lemma MatchesOne(bs: seq<seq<Entry>>, table: map<seq<CChar>, OSString>, sym: OSString, text: seq<CChar>)
    requires Stored(bs, table) && |bs| > 0
    ensures |Matches(table, sym, |bs|, text)| <= 1
    ensures Matches(table, sym, |bs|, text) != {} ==> |Matches(table, sym, |bs|, text)| == 1
  {
    var m := Matches(table, sym, |bs|, text);
    if m != {} {
      var key :| key in m;
      assert m == {key} by {
        forall other | other in m ensures other == key {
          assert table[other] == table[key];
        }
      }
    }
  }
}
