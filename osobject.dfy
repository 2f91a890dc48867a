/** The reference-counted object base (OSObject.cpp): one 32-bit word packs
    the total retain count (low 16 bits) and the count of retains made by
    collections (high 16 bits). Two totals are reserved: 0xfffe pegs a
    count that was about to wrap, 0xffff marks an object being freed. The
    compare-and-swap retry loops become a single update. */
module OSObjects {
  import opened CStrings
  import opened Serializers

  /** `u_int32_t` */
  newtype u32 = x: int | 0 <= x < 0x1_0000_0000

  const PEGGED: int := 0xfffe
  const FREEING: int := 0xffff

  /** `(u_int16_t) w`: the total count. */
  function Total(w: u32): nat
  {
    w as int % 0x10000
  }

  /** `w >> 16`: the count of collection retains. */
  function Tagged(w: u32): nat
  {
    w as int / 0x10000
  }

  /** `inc`/`dec`: 1, with `1 << 16` added when the tag is the collection type id. */
  function Delta(collection: bool): u32
  {
    if collection then 0x10001 else 1
  }

  /** 32-bit unsigned addition and subtraction, wrapping. */
  function Plus(a: u32, b: u32): u32
  {
    ((a as int + b as int) % 0x1_0000_0000) as u32
  }

  function Minus(a: u32, b: u32): u32
  {
    ((a as int - b as int) % 0x1_0000_0000) as u32
  }

  /** Splitting a word into its halves loses nothing. */
  lemma WordHalves(w: u32)
    ensures w as int == Tagged(w) * 0x10000 + Total(w)
    ensures Total(w) < 0x10000 && Tagged(w) < 0x10000
  {
  }

  /** The word a retain leaves: a sentinel total stays as it is (0xffff is
      the "retain of a freed object" panic, 0xfffe the pegged count);
      otherwise the total goes up by one and a collection retain also
      bumps the tagged half, wrapping in 16 bits. */
  function RetainWord(w: u32, collection: bool): (r: u32)
    ensures Total(w) >= PEGGED ==> r == w
    ensures Total(w) < PEGGED ==> Total(r) == Total(w) + 1
    ensures Total(w) < PEGGED ==> Tagged(r) == (Tagged(w) + (if collection then 1 else 0)) % 0x10000
  {
    if Total(w) == FREEING || Total(w) == PEGGED then w
    else
      var r := Plus(w, Delta(collection));
      RetainArithmetic(w, collection, r);
      r
  }

  lemma RetainArithmetic(w: u32, collection: bool, r: u32)
    requires Total(w) < PEGGED && r == Plus(w, Delta(collection))
    ensures Total(r) == Total(w) + 1
    ensures Tagged(r) == (Tagged(w) + (if collection then 1 else 0)) % 0x10000
  {
    var hi: int, lo: int, c: int := Tagged(w), Total(w), if collection then 1 else 0;
    WordHalves(w);
    assert w as int + Delta(collection) as int == (hi + c) * 0x10000 + (lo + 1);
    if hi + c < 0x10000 {
      assert r as int == (hi + c) * 0x10000 + (lo + 1);
    } else {
      assert r as int == lo + 1;
    }
  }

  /** The count as a release computes it: `origCount - dec`, 32-bit. When
      the total is not zero nothing borrows from the tagged half. */
  function Decremented(w: u32, collection: bool): (a: u32)
    ensures Total(w) >= 1 ==> Total(a) == Total(w) - 1
    ensures Total(w) >= 1 ==> Tagged(a) == (Tagged(w) - (if collection then 1 else 0)) % 0x10000
    ensures Total(w) == 0 ==> Total(a) == 0xffff
  {
    var a := Minus(w, Delta(collection));
    ReleaseArithmetic(w, collection, a);
    a
  }

  lemma ReleaseArithmetic(w: u32, collection: bool, a: u32)
    requires a == Minus(w, Delta(collection))
    ensures Total(w) >= 1 ==> Total(a) == Total(w) - 1
    ensures Total(w) >= 1 ==> Tagged(a) == (Tagged(w) - (if collection then 1 else 0)) % 0x10000
    ensures Total(w) == 0 ==> Total(a) == 0xffff
  {
    var hi: int, lo: int, c: int := Tagged(w), Total(w), if collection then 1 else 0;
    WordHalves(w);
    if lo >= 1 {
      assert w as int - Delta(collection) as int == (hi - c) * 0x10000 + (lo - 1);
      if hi - c >= 0 {
        assert a as int == (hi - c) * 0x10000 + (lo - 1);
      } else {
        assert a as int == 0xffff * 0x10000 + (lo - 1);
      }
    } else {
      assert w as int - Delta(collection) as int == (hi - c - 1) * 0x10000 + 0xffff;
      if hi - c - 1 >= 0 {
        assert a as int == (hi - c - 1) * 0x10000 + 0xffff;
      } else {
        assert a as int == (hi - c - 1 + 0x10000) * 0x10000 + 0xffff;
      }
    }
  }

  /** What a release did: left a sentinel alone, stored a lower count,
      stored the freeing sentinel (the caller must free the object), or
      found the tagged half above the total ("has corrupted the registry"). */
  datatype ReleaseOutcome = Ignored | Released | MustFree | Corrupted

  datatype ReleaseStep = ReleaseStep(word: u32, outcome: ReleaseOutcome)

  /** `taggedRelease(tag, when)` on the word `w`: the new word and the outcome. */
  function ReleaseWord(w: u32, collection: bool, when: int): (r: ReleaseStep)
    ensures Total(w) >= PEGGED ==> r == ReleaseStep(w, Ignored)
    ensures Total(w) < PEGGED ==>
      r.word == (if Total(Decremented(w, collection)) < when then FREEING as u32 else Decremented(w, collection))
    ensures Total(w) < PEGGED ==>
      (r.outcome == Corrupted <==> Total(Decremented(w, collection)) < Tagged(Decremented(w, collection)))
    ensures r.outcome == MustFree <==> Total(w) < PEGGED && r.outcome != Corrupted && r.word as int == FREEING
    ensures r.outcome == Released ==> Tagged(r.word) <= Total(r.word)
  {
    if Total(w) == FREEING || Total(w) == PEGGED then ReleaseStep(w, Ignored)
    else
      var actual := Decremented(w, collection);
      var newCount: u32 := if Total(actual) < when then FREEING as u32 else actual;
      var outcome :=
        if Total(actual) < Tagged(actual) then Corrupted
        else if newCount as int == FREEING then MustFree
        else Released;
      ReleaseStep(newCount, outcome)
  }

  /** `k` untagged retains in a row. */
  ghost function Retains(w: u32, k: nat): u32
  {
    if k == 0 then w else RetainWord(Retains(w, k - 1), false)
  }

  /** The outcomes of `n` plain releases (`release()`, `when == 1`) in a row. */
  ghost function Releases(w: u32, n: nat): seq<ReleaseOutcome>
    decreases n
  {
    if n == 0 then [] else [ReleaseWord(w, false, 1).outcome] + Releases(ReleaseWord(w, false, 1).word, n - 1)
  }

  function Repeat(x: ReleaseOutcome, n: nat): (r: seq<ReleaseOutcome>)
    ensures |r| == n && forall k :: 0 <= k < n ==> r[k] == x
  {
    if n == 0 then [] else [x] + Repeat(x, n - 1)
  }

  /** Below the pegging point each plain retain of an object without
      collection retains adds exactly one. */
  lemma {:induction false} RetainsCount(k: nat)
    requires 1 + k < PEGGED
    ensures Retains(1, k) == (1 + k) as u32
  {
    if k > 0 {
      RetainsCount(k - 1);
      assert Total((k) as u32) == k && Tagged(k as u32) == 0;
    }
  }

  /** Once an object is being freed every further release is ignored. */
  lemma {:induction false} ReleasesAfterFree(w: u32, n: nat)
    requires Total(w) == FREEING
    ensures Releases(w, n) == Repeat(Ignored, n)
  {
    if n > 0 {
      ReleasesAfterFree(w, n - 1);
    }
  }

  /** An object with total `c` and no collection retains survives `c - 1`
      plain releases, is freed by the next one, and ignores every release
      after that: `free` runs exactly once. */
  lemma {:induction false} ReleasesCount(c: nat, extra: nat)
    requires 1 <= c < PEGGED
    ensures Releases(c as u32, c + extra) == Repeat(Released, c - 1) + [MustFree] + Repeat(Ignored, extra)
  {
    var w := c as u32;
    assert Total(w) == c && Tagged(w) == 0;
    var step := ReleaseWord(w, false, 1);
    if c == 1 {
      assert step == ReleaseStep(FREEING as u32, MustFree);
      ReleasesAfterFree(FREEING as u32, extra);
    } else {
      assert step == ReleaseStep((c - 1) as u32, Released);
      ReleasesCount(c - 1, extra);
      assert Repeat(Released, c - 1) == [Released] + Repeat(Released, c - 2);
    }
  }

  /** A new object retained `k` times is freed by exactly the `k + 1`-th
      plain release, and `free` runs once however many releases follow. */
  lemma FreedOnLastRelease(k: nat, extra: nat)
    requires 1 + k < PEGGED
    ensures Releases(Retains(1, k), k + 1 + extra) == Repeat(Released, k) + [MustFree] + Repeat(Ignored, extra)
    ensures var outcomes := Releases(Retains(1, k), k + 1 + extra);
      forall i :: 0 <= i < |outcomes| ==> (outcomes[i] == MustFree <==> i == k)
  {
    var c := 1 + k;
    RetainsCount(k);
    ReleasesCount(c, extra);
    assert Releases(Retains(1, k), k + 1 + extra) == Releases(c as u32, c + extra);
    FreeOnlyAt(k, extra);
  }

  /** In `k` plain releases, one free and `extra` ignored releases, the
      free is at position `k` and nowhere else. */
  lemma FreeOnlyAt(k: nat, extra: nat)
    ensures var outcomes := Repeat(Released, k) + [MustFree] + Repeat(Ignored, extra);
      forall i :: 0 <= i < |outcomes| ==> (outcomes[i] == MustFree <==> i == k)
  {
    var outcomes := Repeat(Released, k) + [MustFree] + Repeat(Ignored, extra);
    forall i | 0 <= i < |outcomes|
      ensures outcomes[i] == MustFree <==> i == k
    {
      if i < k {
        assert outcomes[i] == Repeat(Released, k)[i];
      } else if i > k {
        assert outcomes[i] == Repeat(Ignored, extra)[i - k - 1];
      }
    }
  }

  /** A release undoes a retain with the same tag: the word comes back
      and the release reports a plain decrement. */
  lemma ReleaseUndoesRetain(w: u32, collection: bool, when: int)
    requires Total(w) + 1 < PEGGED && Tagged(w) <= Total(w) && Total(w) >= when
    requires collection ==> Tagged(w) < 0xffff
    ensures ReleaseWord(RetainWord(w, collection), collection, when) == ReleaseStep(w, Released)
  {
    var r := RetainWord(w, collection);
    var a := Decremented(r, collection);
    WordHalves(w);
    WordHalves(r);
    WordHalves(a);
    assert Total(a) == Total(w) && Tagged(a) == Tagged(w);
  }

  /** The text `OSObject::serialize` writes for an object that has no
      serialization of its own. */
  function NotSerializableNote(): seq<CChar> { " is not serializable" }

  /** The element name every string-valued serialization uses. */
  function StringTag(): seq<CChar> { "string" }

  /** The pieces of the `string` element written for an object whose
      class has no serialization of its own. */
  function NotSerializablePieces(className: seq<CChar>, t: seq<CChar>): seq<seq<CChar>>
  {
    [StartTag(StringTag(), t), CStr(className), CStr(NotSerializableNote()), EndTag(StringTag())]
  }

  function NotSerializableText(className: seq<CChar>, t: seq<CChar>): seq<CChar>
  {
    Concat(NotSerializablePieces(className, t))
  }

  class OSObject {
    var retainCount: u32
    ghost var freeCount: nat   // how many times `OSObject::free` ran

    /** A new object holds one reference and no collection retains. */
    constructor()
      ensures retainCount == 1 && freeCount == 0
      ensures Total(retainCount) == 1 && Tagged(retainCount) == 0
    {
      retainCount := 1;
      freeCount := 0;
    }

    /** `getRetainCount`: only the total, the low 16 bits; the collection
        half is dropped. */
    function GetRetainCount(): (r: int)
      reads this`retainCount
      ensures 0 <= r < 0x10000
      ensures retainCount as int == Tagged(retainCount) * 0x10000 + r
    {
      WordHalves(retainCount);
      Total(retainCount)
    }

    /** `taggedRetain(tag)`. Returns false for the "retain of a freed
        object" panic, which changes nothing. */
    method TaggedRetain(collection: bool) returns (ok: bool)
      modifies this`retainCount
      ensures ok <==> Total(old(retainCount)) != FREEING
      ensures retainCount == RetainWord(old(retainCount), collection)
    {
      var origCount := retainCount;
      if Total(origCount) == FREEING {
        return false;
      }
      ok := true;
      if Total(origCount) == PEGGED {
        return;
      }
      retainCount := Plus(origCount, Delta(collection));
    }

    method Retain() returns (ok: bool)
      modifies this`retainCount
      ensures ok <==> Total(old(retainCount)) != FREEING
      ensures retainCount == RetainWord(old(retainCount), false)
    {
      ok := TaggedRetain(false);
    }

    /** `taggedRelease(tag, when)` without the call of the virtual `free`:
        the outcome says whether the caller must free the object. */
    method TaggedRelease(collection: bool, when: int) returns (outcome: ReleaseOutcome)
      modifies this`retainCount
      ensures ReleaseStep(retainCount, outcome) == ReleaseWord(old(retainCount), collection, when)
    {
      var origCount := retainCount;
      if Total(origCount) == FREEING || Total(origCount) == PEGGED {
        return Ignored;
      }
      var actualCount := Minus(origCount, Delta(collection));
      var newCount: u32;
      if Total(actualCount) < when {
        newCount := FREEING as u32;
      } else {
        newCount := actualCount;
      }
      retainCount := newCount;
      if Total(actualCount) < Tagged(actualCount) {
        return Corrupted;
      }
      if newCount as int == FREEING {
        return MustFree;
      }
      outcome := Released;
    }

    /** `OSObject::free`: the object's memory is given back. */
    method Free()
      modifies this`freeCount
      ensures freeCount == old(freeCount) + 1
    {
      freeCount := freeCount + 1;
    }

    /** `release(when)` of an object whose class adds no `free` of its own. */
    method ReleaseWhen(when: int) returns (outcome: ReleaseOutcome)
      modifies this`retainCount, this`freeCount
      ensures ReleaseStep(retainCount, outcome) == ReleaseWord(old(retainCount), false, when)
      ensures freeCount == old(freeCount) + (if outcome == MustFree then 1 else 0)
    {
      outcome := TaggedRelease(false, when);
      if outcome == MustFree {
        Free();
      }
    }

    /** `release()`: `release(1)`. */
    method Release() returns (outcome: ReleaseOutcome)
      modifies this`retainCount, this`freeCount
      ensures ReleaseStep(retainCount, outcome) == ReleaseWord(old(retainCount), false, 1)
      ensures freeCount == old(freeCount) + (if outcome == MustFree then 1 else 0)
    {
      outcome := ReleaseWhen(1);
    }

    /** `OSObject::serialize`: a reference to an earlier serialization, or
        a `string` element saying the class cannot be serialized. The
        class name is the one the object's metaclass reports. */
    method Serialize(s: OSSerialize, className: seq<CChar>) returns (r: bool)
      requires s.Valid()
      modifies s`data, s`capacity, s`length, s`text, s`tag, s`tags, s`order, s.data
      ensures s.Valid() && s.capacityIncrement == old(s.capacityIncrement)
      ensures this in old(s.tags) ==>
        r && s.tags == old(s.tags) && s.tag == old(s.tag) &&
        ReferenceEmitted(old(s.text), s.text, old(s.tags)[this])
      ensures this !in old(s.tags) ==>
        s.tags == old(s.tags)[this := Decimal(old(s.tag))] && s.tag == old(s.tag) + 1 &&
        AppendedPrefix(old(s.text), s.text, NotSerializableText(className, Decimal(old(s.tag)))) &&
        (r <==> s.text == old(s.text) + NotSerializableText(className, Decimal(old(s.tag))))
    {
      r := s.PreviouslySerialized(this);
      if r {
        return;
      }
      r := EmitNotSerializable(s, className);
    }

    /** The `string` element of an object seen for the first time. */
    method EmitNotSerializable(s: OSSerialize, className: seq<CChar>) returns (r: bool)
      requires s.Valid() && this in s.tags
      modifies s`data, s`capacity, s`length, s`text, s.data
      ensures s.Valid()
      ensures AppendedPrefix(old(s.text), s.text, NotSerializableText(className, s.tags[this]))
      ensures r <==> s.text == old(s.text) + NotSerializableText(className, s.tags[this])
    {
      ghost var t0, ps := s.text, NotSerializablePieces(className, s.tags[this]);
      EndTagText(StringTag());
      r := s.EmitStartTagAndString(t0, ps, this, StringTag(), className);
      if !r { return; }
      r := s.EmitStringAndEndTag(t0, ps, 2, NotSerializableNote(), StringTag());
      if !r { return; }
      RunDone(t0, ps, s.text);
    }
  }
}
