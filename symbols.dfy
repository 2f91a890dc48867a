/** OSSymbol: strings interned in one pool, so that symbols of equal text
    are one object. The pool is passed explicitly where the source keeps it
    in a file-level static; the symbol class adds no state to OSString. */

module Symbols {
  import opened CStrings
  import opened OSObjects
  import opened OSStrings
  import opened SymbolPool

  /** The objects whose retain counts the lookups may raise. */
  ghost function Bases(pool: OSSymbolPool): set<OSObject>
    reads pool
  {
    set s | s in pool.table.Values :: s.base
  }

  /** The storage of the pooled symbols. */
  ghost function Storage(pool: OSSymbolPool): set<array?<CChar>>
    reads pool, pool.table.Values
  {
    set s | s in pool.table.Values :: s.str
  }

  /** Every pooled symbol is a NUL-terminated string whose text is its key. */
  ghost predicate Interned(pool: OSSymbolPool)
    reads pool, pool.table.Values, Storage(pool)
  {
    forall key :: key in pool.table ==> Names(pool.table[key], key)
  }

  /** `s` is a NUL-terminated string of text `key`. */
  ghost predicate Names(s: OSString, key: seq<CChar>)
    reads s, s.str
  {
    s.Terminated() && s.Content() == key
  }

  /** The interning guarantee: two pooled symbols have the same text only
      when they are the same object, so `isEqualTo(const OSSymbol *)`,
      which compares identities, agrees with comparing the strings. */
  lemma IdentityIsContent(pool: OSSymbolPool, a: OSString, b: OSString)
    requires Interned(pool) && a in pool.table.Values && b in pool.table.Values
    ensures a.Valid() && b.Valid()
    ensures SymbolIsEqualTo(a, b) <==> a.IsEqualTo(b)
  {
    var ka :| ka in pool.table && pool.table[ka] == a;
    var kb :| kb in pool.table && pool.table[kb] == b;
    assert a.Content() == ka && b.Content() == kb;
  }

  /** `OSSymbol::isEqualTo(const OSSymbol *)`: identity. */
  function SymbolIsEqualTo(a: OSString, b: OSString): (r: bool)
    ensures r <==> a == b
  {
    a == b
  }

  /** `withCString`: the pooled symbol of the text of `cString`, retained;
      failing that a new symbol holding a copy of it, put in the pool; null
      when the new symbol cannot be made. */
  method WithCString(pool: OSSymbolPool, cString: array<CChar>) returns (r: OSString?)
    requires pool.Valid() && Interned(pool) && NUL in cString[..]
    modifies pool, pool.buckets, Bases(pool)`retainCount
    ensures pool.Valid() && Interned(pool)
    ensures r != null ==> CStr(cString[..]) in pool.table && pool.table[CStr(cString[..])] == r
    ensures forall o :: o in old(Bases(pool)) && (r == null || o != r.base) ==> o.retainCount == old(o.retainCount)
    ensures CStr(cString[..]) in old(pool.table) ==>
      r == old(pool.table)[CStr(cString[..])] && pool.table == old(pool.table) &&
      r.base.retainCount == RetainWord(old(r.base.retainCount), false)
    ensures CStr(cString[..]) !in old(pool.table) ==>
      (r == null && pool.table == old(pool.table)) ||
      (r != null && fresh(r) && fresh(r.str) && !r.noCopy && r.base.retainCount == 1 &&
       pool.table == old(pool.table)[CStr(cString[..]) := r])
  {
    ghost var key := CStr(cString[..]);
    var found := pool.FindSymbol(cString[..]);
    if found != null {
      assert found.base in Bases(pool);
      RetainSymbol(pool, found);
      assert cString[..] == old(cString[..]);
      return found;
    }
    r := AddCopy(pool, cString);
    assert cString[..] == old(cString[..]);
  }

  /** The second half of `withCString`, for a text not in the pool yet. */
  method AddCopy(pool: OSSymbolPool, cString: array<CChar>) returns (r: OSString?)
    requires pool.Valid() && Interned(pool) && NUL in cString[..] && CStr(cString[..]) !in pool.table
    modifies pool, pool.buckets
    ensures pool.Valid() && Interned(pool)
    ensures (r == null && pool.table == old(pool.table)) ||
      (r != null && fresh(r) && fresh(r.str) && !r.noCopy && r.base.retainCount == 1 &&
       pool.table == old(pool.table)[CStr(cString[..]) := r])
    ensures forall o :: o in old(Bases(pool)) ==> o.retainCount == old(o.retainCount)
  {
    var sym := NewCopy(cString);
    if sym != null {
      Intern(pool, sym, CStr(cString[..]));
    }
    r := sym;
  }

  /** The retain a lookup gives the symbol it found, and to no other. */
  method RetainSymbol(pool: OSSymbolPool, sym: OSString)
    requires pool.Valid() && Interned(pool) && sym in pool.table.Values
    modifies sym.base`retainCount
    ensures pool.Valid() && Interned(pool) && pool.table == old(pool.table)
    ensures sym.base.retainCount == RetainWord(old(sym.base.retainCount), false)
    ensures forall o :: o in old(Bases(pool)) && o != sym.base ==> o.retainCount == old(o.retainCount)
  {
    var retained := sym.base.Retain();
  }

  /** `new OSSymbol` and `initWithCString`: a fresh symbol holding a copy of
      `cString`, or null when either allocation fails (the half-made symbol
      is then freed). */
  method NewCopy(cString: array<CChar>) returns (sym: OSString?)
    requires NUL in cString[..]
    ensures sym != null ==> fresh(sym) && fresh(sym.str) && !sym.noCopy && sym.base.retainCount == 1
    ensures sym != null ==> sym.Terminated() && sym.Content() == CStr(cString[..])
  {
    var made: bool := *;  // whether `new OSSymbol` succeeds
    if !made {
      return null;
    }
    sym := new OSString();
    var ok := sym.InitWithCString(cString);
    if !ok {
      sym.Free();
      return null;
    }
  }

  /** `new OSSymbol` and `initWithCStringNoCopy`: a fresh symbol over the
      storage of `cString`, or null when the allocation fails. */
  method NewNoCopy(cString: array<CChar>) returns (sym: OSString?)
    requires NUL in cString[..]
    ensures sym != null ==> fresh(sym) && sym.str == cString && sym.noCopy && sym.base.retainCount == 1
    ensures sym != null ==> sym.Terminated() && sym.Content() == CStr(cString[..])
  {
    var made: bool := *;  // whether `new OSSymbol` succeeds
    if !made {
      return null;
    }
    sym := new OSString();
    var ok := sym.InitWithCStringNoCopy(cString);
  }

  /** `withCStringNoCopy`: as `WithCString`, except that a new symbol
      keeps `cString` itself as its storage. */
  method WithCStringNoCopy(pool: OSSymbolPool, cString: array<CChar>) returns (r: OSString?)
    requires pool.Valid() && Interned(pool) && NUL in cString[..]
    modifies pool, pool.buckets, Bases(pool)`retainCount
    ensures pool.Valid() && Interned(pool)
    ensures r != null ==> CStr(cString[..]) in pool.table && pool.table[CStr(cString[..])] == r
    ensures forall o :: o in old(Bases(pool)) && (r == null || o != r.base) ==> o.retainCount == old(o.retainCount)
    ensures CStr(cString[..]) in old(pool.table) ==>
      r == old(pool.table)[CStr(cString[..])] && pool.table == old(pool.table) &&
      r.base.retainCount == RetainWord(old(r.base.retainCount), false)
    ensures CStr(cString[..]) !in old(pool.table) ==>
      (r == null && pool.table == old(pool.table)) ||
      (r != null && fresh(r) && r.str == cString && r.noCopy && r.base.retainCount == 1 &&
       pool.table == old(pool.table)[CStr(cString[..]) := r])
  {
    ghost var key := CStr(cString[..]);
    var found := pool.FindSymbol(cString[..]);
    if found != null {
      assert found.base in Bases(pool);
      RetainSymbol(pool, found);
      assert cString[..] == old(cString[..]);
      return found;
    }
    r := AddNoCopy(pool, cString);
    assert cString[..] == old(cString[..]);
  }

  /** The second half of `withCStringNoCopy`, for a text not in the pool yet. */
  method AddNoCopy(pool: OSSymbolPool, cString: array<CChar>) returns (r: OSString?)
    requires pool.Valid() && Interned(pool) && NUL in cString[..] && CStr(cString[..]) !in pool.table
    modifies pool, pool.buckets
    ensures pool.Valid() && Interned(pool)
    ensures (r == null && pool.table == old(pool.table)) ||
      (r != null && fresh(r) && r.str == cString && r.noCopy && r.base.retainCount == 1 &&
       pool.table == old(pool.table)[CStr(cString[..]) := r])
    ensures forall o :: o in old(Bases(pool)) ==> o.retainCount == old(o.retainCount)
  {
    var sym := NewNoCopy(cString);
    if sym != null {
      Intern(pool, sym, CStr(cString[..]));
    }
    r := sym;
  }

  /** The insertion both lookups end with. The pool was searched for the
      text just before, so `insertSymbol` hands back the new symbol. */
  method Intern(pool: OSSymbolPool, sym: OSString, ghost key: seq<CChar>)
    requires pool.Valid() && Interned(pool) && key !in pool.table
    requires sym.Terminated() && sym.Content() == key && sym !in pool.table.Values
    modifies pool, pool.buckets
    ensures pool.Valid() && Interned(pool) && pool.table == old(pool.table)[key := sym]
  {
    var inserted := pool.InsertSymbol(Entry(sym, sym.str[..sym.length - 1]));
    assert inserted == sym;
  }

  /** How `withCString` and `withCStringNoCopy` end as written, from
      whether the lookup found a symbol, whether `new OSSymbol` succeeded
      and whether the string's initialisation succeeded. */
  datatype Ending = ReturnsNull | ReturnsNew | RetainsFound | RetainsNull

  function EndingAsWritten(found: bool, made: bool, initialised: bool): (r: Ending)
    ensures r == RetainsNull <==> !found && made && !initialised
    ensures r == RetainsFound <==> found
  {
    if found then RetainsFound
    else if !made then ReturnsNull
    else if initialised then ReturnsNew  // insertSymbol hands back the new symbol
    else RetainsNull                     // oldSymb is still null when retained
  }

  /** A symbol whose string cannot be initialised, as when the copy of
      `withCString` cannot be made, leads to `retain` on null. */
  lemma InitFailureRetainsNull()
    ensures EndingAsWritten(false, true, false) == RetainsNull
  {
  }

  /** The not-found path of `withCString` as written, on the model's own
      operations: `new OSSymbol`, then `initWithCString`, whose outcome is
      the `initialised` of `EndingAsWritten`. The retain on null happens
      exactly when the symbol was made and its copy could not be. */
  method NotFoundAsWritten(cString: array<CChar>) returns (e: Ending, sym: OSString?)
    requires NUL in cString[..]
    ensures e != RetainsFound
    ensures e == ReturnsNull <==> sym == null
    ensures e == RetainsNull <==> sym != null && sym.str == null
    ensures e == ReturnsNew ==> sym != null && sym.Terminated() && sym.Content() == CStr(cString[..])
  {
    var made: bool := *;  // whether `new OSSymbol` succeeds
    if !made {
      return EndingAsWritten(false, false, false), null;
    }
    sym := new OSString();
    var ok := sym.InitWithCString(cString);
    e := EndingAsWritten(false, true, ok);
  }

  /** How the lookups end in `WithCString`: a failed initialisation frees
      the new symbol and gives null. */
  function EndingCorrected(found: bool, made: bool, initialised: bool): (r: Ending)
    ensures r != RetainsNull
    ensures r == RetainsFound <==> found
    ensures r == ReturnsNew <==> !found && made && initialised
  {
    if found then RetainsFound
    else if made && initialised then ReturnsNew
    else ReturnsNull
  }

  /** The copy `checkForPageUnload` gives a symbol: owned storage of
      `length` bytes holding the same string. */
  method MoveStorage(sym: OSString)
    requires sym.Terminated()
    modifies sym`str, sym`noCopy
    ensures fresh(sym.str) && !sym.noCopy && sym.str[..] == old(sym.str[..sym.length])
    ensures sym.Terminated() && sym.Content() == old(sym.Content())
  {
    var src: array<CChar> := sym.str;
    var copy := new CChar[sym.length](k requires 0 <= k < src.Length reads src => src[k]);
    assert copy[..sym.length - 1] == src[..sym.length - 1];
    sym.str := copy;
    sym.noCopy := false;
  }

  /** `s` still has the storage and flag it had when the scan began. */
  ghost predicate Kept(s: OSString, str0: array<CChar>, noCopy0: bool)
    reads s
  {
    s.str == str0 && s.noCopy == noCopy0
  }

  /** `checkForPageUnload`: every pooled symbol whose storage is in the
      range being unloaded gets an owned copy and loses its no-copy flag;
      the others are left alone. */
  method CheckForPageUnload(pool: OSSymbolPool, unloading: set<array?<CChar>>)
    requires pool.Valid() && Interned(pool)
    modifies pool.table.Values`str, pool.table.Values`noCopy
    ensures pool.Valid() && Interned(pool)
    ensures forall s :: s in pool.table.Values && old(s.str) in unloading ==> fresh(s.str) && !s.noCopy
    ensures forall s :: s in pool.table.Values && old(s.str) !in unloading ==>
      s.str == old(s.str) && s.noCopy == old(s.noCopy)
    ensures forall s :: s in pool.table.Values ==> s.storageFrees == old(s.storageFrees)
  {
    EnumerationVisitsAll(pool.buckets[..], pool.table);
    UnloadAll(pool, unloading);
  }

  /** The storage of the symbols `syms`. */
  ghost function StorageOf(syms: set<OSString>): set<array?<CChar>>
    reads syms
  {
    set s | s in syms :: s.str
  }

  /** The state of the symbols `syms` during the scan of
      `checkForPageUnload`, against the storage, flag and text each had
      when it began: every symbol keeps its text, and it either is as it
      was or has moved from unloaded storage to storage outside that
      range, with its no-copy flag cleared. */
  ghost predicate Scanning(syms: set<OSString>, str0: map<OSString, array<CChar>>, noCopy0: map<OSString, bool>,
                           key0: map<OSString, seq<CChar>>, unloading: set<array?<CChar>>)
    reads syms, StorageOf(syms)
  {
    (forall s :: s in syms ==> s in str0 && s in noCopy0 && s in key0) &&
    (forall s :: s in syms ==> Names(s, key0[s])) &&
    (forall s :: s in syms ==>
       Kept(s, str0[s], noCopy0[s]) || (str0[s] in unloading && s.str !in unloading && !s.noCopy))
  }

  /** The loop of `checkForPageUnload`, over the enumeration of the pool:
      every symbol whose storage lies in `unloading` is moved to a fresh
      copy, and no other symbol changes. */
  method UnloadAll(pool: OSSymbolPool, unloading: set<array?<CChar>>)
    requires pool.nBuckets == pool.buckets.Length && Interned(pool)
    requires forall e :: e in Enumeration(pool.buckets[..]) ==> e.text in pool.table && pool.table[e.text] == e.sym
    requires forall key :: key in pool.table ==> Entry(pool.table[key], key) in Enumeration(pool.buckets[..])
    modifies pool.table.Values`str, pool.table.Values`noCopy
    ensures Interned(pool)
    ensures forall s :: s in pool.table.Values && old(s.str) in unloading ==> fresh(s.str) && !s.noCopy
    ensures forall s :: s in pool.table.Values && old(s.str) !in unloading ==>
      s.str == old(s.str) && s.noCopy == old(s.noCopy)
  {
    ghost var bs := pool.buckets[..];
    ghost var all := Enumeration(bs);
    ghost var table := pool.table;
    ghost var syms := table.Values;
    ghost var str0: map<OSString, array<CChar>> := map s: OSString | s in syms :: s.str;
    ghost var noCopy0: map<OSString, bool> := map s: OSString | s in syms :: s.noCopy;
    ghost var key0: map<OSString, seq<CChar>> := map s: OSString | s in syms :: s.Content();
    ScanStart(pool, bs, syms, str0, noCopy0, key0, unloading);
    UnloadScan(pool, bs, syms, str0, noCopy0, key0, unloading);
    ScanEnd(pool, bs, syms, str0, noCopy0, key0, unloading);
  }

  /** Before the scan every pooled symbol is as it was and the enumeration
      holds only pooled symbols. */
  lemma ScanStart(pool: OSSymbolPool, bs: seq<seq<Entry>>, syms: set<OSString>,
                  str0: map<OSString, array<CChar>>, noCopy0: map<OSString, bool>,
                  key0: map<OSString, seq<CChar>>, unloading: set<array?<CChar>>)
    requires Interned(pool) && syms == pool.table.Values
    requires str0 == (map s: OSString | s in syms :: s.str) && noCopy0 == (map s: OSString | s in syms :: s.noCopy)
    requires key0 == (map s: OSString | s in syms :: s.Content())
    requires forall e :: e in Enumeration(bs) ==> e.text in pool.table && pool.table[e.text] == e.sym
    ensures ScanState(bs, Enumeration(bs), syms, str0, noCopy0, key0, unloading)
    ensures forall s :: s in syms ==> Kept(s, str0[s], noCopy0[s])
    ensures forall key :: key in pool.table ==> key0[pool.table[key]] == key
  {
    forall key | key in pool.table ensures key0[pool.table[key]] == key {
      assert Names(pool.table[key], key);
    }
    forall s | s in syms ensures Names(s, key0[s]) {
      var key :| key in pool.table && pool.table[key] == s;
      assert Names(s, key);
    }
  }

  /** After the scan every pooled symbol still names its key, and it has
      moved exactly when its storage was in the unloaded range. */
  lemma ScanEnd(pool: OSSymbolPool, bs: seq<seq<Entry>>, syms: set<OSString>,
                str0: map<OSString, array<CChar>>, noCopy0: map<OSString, bool>,
                key0: map<OSString, seq<CChar>>, unloading: set<array?<CChar>>)
    requires syms == pool.table.Values && ScanState(bs, [], syms, str0, noCopy0, key0, unloading)
    requires forall key :: key in pool.table ==> key0[pool.table[key]] == key
    requires forall key :: key in pool.table ==> Entry(pool.table[key], key) in Enumeration(bs)
    ensures Interned(pool)
    ensures forall s :: s in syms && str0[s] in unloading ==> !s.noCopy && s.str != str0[s]
    ensures forall s :: s in syms && str0[s] !in unloading ==> Kept(s, str0[s], noCopy0[s])
  {
  }

  /** Part way through the scan, with `rest` still to visit: the symbols
      are as `Scanning` says, and every entry visited has its storage
      outside the unloaded range. */
  ghost predicate ScanState(bs: seq<seq<Entry>>, rest: seq<Entry>, syms: set<OSString>,
                            str0: map<OSString, array<CChar>>, noCopy0: map<OSString, bool>,
                            key0: map<OSString, seq<CChar>>, unloading: set<array?<CChar>>)
    reads syms, StorageOf(syms)
  {
    Scanning(syms, str0, noCopy0, key0, unloading) &&
    (forall e :: e in rest ==> e.sym in syms) &&
    (forall e :: e in Enumeration(bs) && e !in rest ==> e.sym in syms && e.sym.str !in unloading)
  }

  /** The scan itself: every entry of the enumeration is visited, so
      every symbol of `syms` ends up outside the unloaded range. */
  method UnloadScan(pool: OSSymbolPool, ghost bs: seq<seq<Entry>>, ghost syms: set<OSString>,
                    ghost str0: map<OSString, array<CChar>>, ghost noCopy0: map<OSString, bool>,
                    ghost key0: map<OSString, seq<CChar>>, unloading: set<array?<CChar>>)
    requires pool.nBuckets == pool.buckets.Length && pool.buckets[..] == bs
    requires ScanState(bs, Enumeration(bs), syms, str0, noCopy0, key0, unloading)
    requires forall s :: s in syms ==> Kept(s, str0[s], noCopy0[s])
    modifies syms`str, syms`noCopy
    ensures ScanState(bs, [], syms, str0, noCopy0, key0, unloading)
    ensures forall s :: s in syms && !Kept(s, str0[s], noCopy0[s]) ==> fresh(s.str)
  {
    var st := pool.InitHashState();
    while true
      invariant StateValid(bs, st) && ScanState(bs, Remaining(bs, st), syms, str0, noCopy0, key0, unloading)
      invariant forall s :: s in syms && !Kept(s, str0[s], noCopy0[s]) ==> fresh(s.str)
      decreases |Remaining(bs, st)|
    {
      var next;
      next, st := UnloadNext(pool, bs, st, syms, str0, noCopy0, key0, unloading);
      if next.None? {
        break;
      }
    }
  }

  /** One step of the scan: the next entry of the enumeration, if any,
      and its symbol visited. */
  method UnloadNext(pool: OSSymbolPool, ghost bs: seq<seq<Entry>>, st: HashState, ghost syms: set<OSString>,
                    ghost str0: map<OSString, array<CChar>>, ghost noCopy0: map<OSString, bool>,
                    ghost key0: map<OSString, seq<CChar>>, unloading: set<array?<CChar>>)
    returns (r: Option<Entry>, next: HashState)
    requires pool.nBuckets == pool.buckets.Length && pool.buckets[..] == bs && StateValid(bs, st)
    requires ScanState(bs, Remaining(bs, st), syms, str0, noCopy0, key0, unloading)
    modifies syms`str, syms`noCopy
    ensures StateValid(bs, next) && ScanState(bs, Remaining(bs, next), syms, str0, noCopy0, key0, unloading)
    ensures r == None ==> Remaining(bs, next) == []
    ensures r.Some? ==> |Remaining(bs, next)| < |Remaining(bs, st)|
    ensures forall s :: s in syms ==> Kept(s, old(s.str), old(s.noCopy)) || fresh(s.str)
  {
    r, next := pool.NextHashState(st);
    if r.Some? {
      assert r.value in Remaining(bs, st);
      assert forall e :: e in Remaining(bs, st) ==> e == r.value || e in Remaining(bs, next);
      UnloadVisit(r.value.sym, syms, str0, noCopy0, key0, unloading);
    } else {
      RemainingAtEnd(bs);
    }
  }

  /** One visit of `checkForPageUnload`: `sym` gets its own storage if its
      storage is in the range being unloaded. A symbol met a second time
      is left as it is, since its new storage is outside that range. */
  method UnloadVisit(sym: OSString, ghost syms: set<OSString>, ghost str0: map<OSString, array<CChar>>,
                     ghost noCopy0: map<OSString, bool>, ghost key0: map<OSString, seq<CChar>>,
                     unloading: set<array?<CChar>>)
    requires sym in syms && Scanning(syms, str0, noCopy0, key0, unloading)
    modifies sym`str, sym`noCopy
    ensures Scanning(syms, str0, noCopy0, key0, unloading)
    ensures sym.str !in unloading
    ensures Kept(sym, old(sym.str), old(sym.noCopy)) || fresh(sym.str)
  {
    if sym.str in unloading {
      MoveStorage(sym);
    }
  }

  /** `release()` on a symbol: `OSSymbol::taggedRelease` releases the
      object part under the pool's gate, and the last release runs the
      symbol's own `free`, which takes it out of the pool first. */
  method ReleaseSymbol(pool: OSSymbolPool, sym: OSString) returns (outcome: ReleaseOutcome)
    requires pool.Valid() && Interned(pool) && sym.Terminated()
    modifies pool, pool.buckets, sym.base`retainCount, sym`storageFrees, sym.base`freeCount
    ensures pool.Valid() && Interned(pool)
    ensures ReleaseStep(sym.base.retainCount, outcome) == ReleaseWord(old(sym.base.retainCount), false, 1)
    ensures outcome == MustFree ==>
      sym !in pool.table.Values &&
      pool.table == old(pool.table) - (if sym in old(pool.table.Values) then {old(sym.Content())} else {}) &&
      sym.storageFrees == old(sym.storageFrees) + (if sym.noCopy then 0 else 1) &&
      sym.base.freeCount == old(sym.base.freeCount) + 1
    ensures outcome != MustFree ==>
      pool.table == old(pool.table) && sym.storageFrees == old(sym.storageFrees) &&
      sym.base.freeCount == old(sym.base.freeCount)
  {
    outcome := sym.base.TaggedRelease(false, 1);
    InternedKept(pool);
    if outcome == MustFree {
      FreeSymbol(pool, sym);
    }
  }

  /** `OSSymbol::free`: out of the pool, then freed as a string. */
  method FreeSymbol(pool: OSSymbolPool, sym: OSString)
    requires pool.Valid() && Interned(pool) && sym.Terminated()
    modifies pool, pool.buckets, sym`storageFrees, sym.base`freeCount
    ensures pool.Valid() && Interned(pool) && sym !in pool.table.Values
    ensures pool.table == old(pool.table) - (if sym in old(pool.table.Values) then {old(sym.Content())} else {})
    ensures sym.storageFrees == old(sym.storageFrees) + (if sym.noCopy then 0 else 1)
    ensures sym.base.freeCount == old(sym.base.freeCount) + 1
  {
    Unpool(pool, sym);
    sym.Free();
  }

  /** `removeSymbol(this)`: the pool without `sym`. */
  method Unpool(pool: OSSymbolPool, sym: OSString)
    requires pool.Valid() && Interned(pool) && sym.Terminated()
    modifies pool, pool.buckets
    ensures pool.Valid() && Interned(pool) && sym !in pool.table.Values
    ensures pool.table == old(pool.table) - (if sym in old(pool.table.Values) then {sym.Content()} else {})
  {
    ghost var gone := if sym in pool.table.Values then {sym.Content()} else {};
    InternedMatches(pool, sym);
    pool.RemoveSymbol(sym, sym.str[..sym.length - 1]);
    assert pool.table == old(pool.table) - gone;
    InternedKept(pool);
    forall key | key in pool.table ensures pool.table[key] != sym {
      assert Names(pool.table[key], key);
    }
  }

  /** A pool whose table lost entries, with its symbols and their storage
      untouched, is still interned. */
  twostate lemma InternedKept(pool: OSSymbolPool)
    requires old(Interned(pool))
    requires forall key :: key in pool.table ==> key in old(pool.table) && pool.table[key] == old(pool.table[key])
    requires unchanged(old(pool.table.Values), old(Storage(pool)))
    ensures Interned(pool)
  {
    forall key | key in pool.table ensures Names(pool.table[key], key) {
      assert old(Names(pool.table[key], key));
    }
  }

  /** In an interned pool a search by identity meets the symbol's own text
      or nothing. */
  lemma InternedMatches(pool: OSSymbolPool, sym: OSString)
    requires pool.Valid() && Interned(pool) && sym.Terminated()
    ensures Matches(pool.table, sym, pool.nBuckets, sym.Content()) ==
      if sym in pool.table.Values then {sym.Content()} else {}
  {
    var m := Matches(pool.table, sym, pool.nBuckets, sym.Content());
    forall key | key in m ensures key == sym.Content() {
      assert pool.table[key].Content() == key;
    }
    if sym in pool.table.Values {
      var key :| key in pool.table && pool.table[key] == sym;
      assert key == sym.Content();
      assert key in m;
    }
  }
}
