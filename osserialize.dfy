/** The growable text buffer with identity-based deduplication that objects
    serialize themselves into (OSSerialize.cpp). */
module Serializers {
  import opened CStrings

  /** The decimal digit character for `d`. */
  function Digit(d: nat): (c: CChar)
    requires d < 10
    ensures '0' <= c <= '9'
  {
    (48 + d) as char
  }

  /** `snprintf("%u", n)`: the decimal numeral of `n`, without leading zeros. */
  function Decimal(n: nat): (r: seq<CChar>)
    ensures |r| >= 1
    ensures forall k :: 0 <= k < |r| ==> '0' <= r[k] <= '9'
    ensures |r| > 1 ==> r[0] != '0'
  {
    if n < 10 then [Digit(n)] else Decimal(n / 10) + [Digit(n % 10)]
  }

  /** The number a string of decimal digits denotes. */
  function DecimalValue(s: seq<CChar>): nat
    requires forall k :: 0 <= k < |s| ==> '0' <= s[k] <= '9'
  {
    if |s| == 0 then 0
    else DecimalValue(s[..|s| - 1]) * 10 + (s[|s| - 1] as int - 48)
  }

  /** Reading a tag back gives the number it was made from, so distinct
      tags are distinct numbers. */
  lemma {:induction false} DecimalRoundTrip(n: nat)
    ensures DecimalValue(Decimal(n)) == n
  {
    if n >= 10 {
      var s := Decimal(n);
      assert s[..|s| - 1] == Decimal(n / 10);
      DecimalRoundTrip(n / 10);
    }
  }

  lemma DecimalInjective(m: nat, n: nat)
    requires Decimal(m) == Decimal(n)
    ensures m == n
  {
    DecimalRoundTrip(m);
    DecimalRoundTrip(n);
  }

  lemma DecimalHasNoNul(n: nat)
    ensures NUL !in Decimal(n) && CStr(Decimal(n)) == Decimal(n)
  {
    var s := Decimal(n);
    assert forall k :: 0 <= k < |s| ==> s[k] != NUL;
    CStrOfNulFree(s);
  }

  /** The marker written in place of an object serialized before. */
  function ReferenceOpen(): seq<CChar> { "<reference IDREF=\"" }
  function ReferenceClose(): seq<CChar> { "\"/>" }

  /** The attribute text between a start tag's name and its ID. */
  function IdOpen(): seq<CChar> { " ID=\"" }

  /** The pieces of `<name ID="t">`, one per append the source makes. */
  function StartTagPieces(name: seq<CChar>, t: seq<CChar>): seq<seq<CChar>>
  {
    [['<'], CStr(name), CStr(IdOpen()), CStr(t), ['"'], ['>']]
  }

  /** The pieces of `</name>`. */
  function EndTagPieces(name: seq<CChar>): seq<seq<CChar>>
  {
    [['<'], ['/'], CStr(name), ['>']]
  }

  function StartTag(name: seq<CChar>, t: seq<CChar>): seq<CChar>
  {
    Concat(StartTagPieces(name, t))
  }

  function EndTag(name: seq<CChar>): seq<CChar>
  {
    Concat(EndTagPieces(name))
  }

  /** The pieces of a run, written one after another. */
  function Concat(ps: seq<seq<CChar>>): seq<CChar>
  {
    if |ps| == 0 then [] else Concat(ps[..|ps| - 1]) + ps[|ps| - 1]
  }

  lemma ConcatStep(ps: seq<seq<CChar>>, k: nat)
    requires k < |ps|
    ensures Concat(ps[..k + 1]) == Concat(ps[..k]) + ps[k]
  {
    assert ps[..k + 1][..k] == ps[..k];
  }

  /** Earlier pieces are a prefix of later ones. */
  lemma {:induction false} ConcatPrefix(ps: seq<seq<CChar>>, k: nat, j: nat)
    requires k <= j <= |ps|
    ensures Concat(ps[..k]) <= Concat(ps[..j])
    decreases j - k
  {
    if k < j {
      ConcatStep(ps, k);
      ConcatPrefix(ps, k + 1, j);
    }
  }

  /** A start tag is `<`, the name, ` ID="`, the tag text, `"` and `>`. */
  lemma StartTagText(name: seq<CChar>, t: seq<CChar>)
    ensures StartTag(name, t) == ['<'] + CStr(name) + CStr(IdOpen()) + CStr(t) + ['"'] + ['>']
  {
    var ps := StartTagPieces(name, t);
    assert ps[..0] == [];
    ConcatStep(ps, 0);
    assert Concat(ps[..1]) == ['<'];
    ConcatStep(ps, 1);
    assert Concat(ps[..2]) == ['<'] + CStr(name);
    ConcatStep(ps, 2);
    assert Concat(ps[..3]) == ['<'] + CStr(name) + CStr(IdOpen());
    ConcatStep(ps, 3);
    assert Concat(ps[..4]) == ['<'] + CStr(name) + CStr(IdOpen()) + CStr(t);
    ConcatStep(ps, 4);
    assert Concat(ps[..5]) == ['<'] + CStr(name) + CStr(IdOpen()) + CStr(t) + ['"'];
    ConcatStep(ps, 5);
    assert ps[..6] == ps;
  }

  /** An end tag is `<`, `/`, the name and `>`. */
  lemma EndTagText(name: seq<CChar>)
    ensures EndTag(name) == ['<'] + ['/'] + CStr(name) + ['>']
  {
    var ps := EndTagPieces(name);
    assert ps[..0] == [];
    ConcatStep(ps, 0); ConcatStep(ps, 1); ConcatStep(ps, 2); ConcatStep(ps, 3);
    assert ps[..4] == ps;
  }

  /** `after` is `before` followed by a prefix of `piece`. */
  ghost predicate AppendedPrefix(before: seq<CChar>, after: seq<CChar>, piece: seq<CChar>)
  {
    |before| <= |after| <= |before| + |piece| && after == before + piece[..|after| - |before|]
  }

  /** An append of `piece` turned the text `u` into `t` and reported `ok`:
      success appends all of `piece`, failure a strict prefix of it, or
      nothing when the piece is empty. */
  ghost predicate Stepped(u: seq<CChar>, t: seq<CChar>, piece: seq<CChar>, ok: bool)
  {
    AppendedPrefix(u, t, piece) &&
    (ok ==> t == u + piece) &&
    (!ok ==> |t| < |u| + |piece| || |piece| == 0)
  }

  /** Where a run of appends of the pieces `ps` after the text `t0` stands
      once piece `k` was attempted: on success the first `k + 1` pieces are
      written; on failure the text is cut short inside the run. */
  ghost predicate Emitted(t0: seq<CChar>, ps: seq<seq<CChar>>, k: nat, t: seq<CChar>, ok: bool)
    requires k < |ps|
  {
    (ok ==> t == t0 + Concat(ps[..k + 1])) &&
    (!ok ==> AppendedPrefix(t0, t, Concat(ps)) && t != t0 + Concat(ps))
  }

  /** One append of a run whose last piece is not empty. */
  lemma Step(t0: seq<CChar>, ps: seq<seq<CChar>>, k: nat, t: seq<CChar>, ok: bool)
    requires k < |ps| && |ps[|ps| - 1]| > 0
    requires Stepped(t0 + Concat(ps[..k]), t, ps[k], ok)
    ensures Emitted(t0, ps, k, t, ok)
  {
    ConcatStep(ps, k);
    if !ok {
      var n := |ps|;
      ConcatPrefix(ps, k + 1, n);
      assert ps[..n] == ps;
      var whole, done := Concat(ps), Concat(ps[..k]);
      var j := |t| - |t0| - |done|;
      assert t == t0 + (done + ps[k][..j]);
      assert done + ps[k][..j] == whole[..|done| + j];
      if k + 1 < n {
        ConcatStep(ps, n - 1);
        ConcatPrefix(ps, k, n - 1);
      } else {
        ConcatStep(ps, k);
      }
      assert |t| < |t0| + |whole|;
    }
  }

  /** A run whose pieces were all written. */
  lemma RunDone(t0: seq<CChar>, ps: seq<seq<CChar>>, t: seq<CChar>)
    requires |ps| > 0 && t == t0 + Concat(ps[..|ps|])
    ensures AppendedPrefix(t0, t, Concat(ps)) && t == t0 + Concat(ps)
  {
    assert ps[..|ps|] == ps;
    assert Concat(ps)[..|Concat(ps)|] == Concat(ps);
  }

  /** A whole run, written by another method, as one piece of a larger run:
      it reports success exactly when it wrote everything. */
  lemma RunStepped(u: seq<CChar>, t: seq<CChar>, piece: seq<CChar>, ok: bool)
    requires AppendedPrefix(u, t, piece) && (ok <==> t == u + piece)
    ensures Stepped(u, t, piece, ok)
  {
  }

  /** What a reference emission leaves behind: each of its three appends is
      cut short independently when the buffer cannot grow. */
  ghost predicate ReferenceEmitted(before: seq<CChar>, after: seq<CChar>, t: seq<CChar>)
  {
    PiecesAppended(before, after, ReferenceOpen(), CStr(t), ReferenceClose())
  }

  /** `after` is `before` followed by a prefix of each of `p`, `q` and `r`, in
      that order: three appends, each of which may stop short. */
  ghost predicate PiecesAppended(before: seq<CChar>, after: seq<CChar>, p: seq<CChar>, q: seq<CChar>, r: seq<CChar>)
  {
    exists a: seq<CChar>, b: seq<CChar>, c: seq<CChar> ::
      a <= p && b <= q && c <= r && after == before + a + b + c
  }

  /** Three appends in a row, each of a prefix, make `PiecesAppended`. */
  lemma PiecesChain(t0: seq<CChar>, t1: seq<CChar>, t2: seq<CChar>, t3: seq<CChar>, p: seq<CChar>, q: seq<CChar>, r: seq<CChar>)
    requires AppendedPrefix(t0, t1, p)
    requires AppendedPrefix(t1, t2, q)
    requires AppendedPrefix(t2, t3, r)
    ensures PiecesAppended(t0, t3, p, q, r)
  {
    var a, b, c := t1[|t0|..], t2[|t1|..], t3[|t2|..];
    assert t3 == t0 + a + b + c;
  }

  /** The fixed pieces of a reference hold no NUL, so each is its own C string. */
  lemma ReferencePiecesNulFree()
    ensures CStr(ReferenceOpen()) == ReferenceOpen()
    ensures CStr(ReferenceClose()) == ReferenceClose()
  {
    var o, c := ReferenceOpen(), ReferenceClose();
    assert NUL !in o && NUL !in c;
    CStrOfNulFree(o);
    CStrOfNulFree(c);
  }

  /** `((n - 1) / inc + 1) * inc` is the smallest multiple of `inc` that is
      at least `n`. */
  lemma RoundUp(n: nat, inc: nat)
    requires n >= 1 && inc >= 1
    ensures var r := ((n - 1) / inc + 1) * inc;
      MultipleOf(r, inc) && n <= r < n + inc
  {
    var q, m := (n - 1) / inc, (n - 1) % inc;
    assert n - 1 == q * inc + m && 0 <= m < inc;
    assert (q + 1) * inc == q * inc + inc;
    assert MultipleOf((q + 1) * inc, inc);
  }

  ghost predicate MultipleOf(x: nat, d: nat)
  {
    exists k: nat :: x == k * d
  }

  /** Tags 0, 1, 2, ... were handed out to the objects of `order` in that
      order, `tag` is the next one, and `tags` maps each object to the
      decimal text of its own. */
  ghost predicate TagsNumbered(tags: map<object, seq<CChar>>, order: seq<object>, tag: nat)
  {
    |order| == tag &&
    (forall i, j :: 0 <= i < j < |order| ==> order[i] != order[j]) &&
    tags.Keys == (set i | 0 <= i < |order| :: order[i]) &&
    (forall i :: 0 <= i < |order| ==> tags[order[i]] == Decimal(i))
  }

  /** Numbering a new object keeps the numbering. */
  lemma TagsNumberedExtend(tags: map<object, seq<CChar>>, order: seq<object>, tag: nat, o: object)
    requires TagsNumbered(tags, order, tag) && o !in tags
    ensures TagsNumbered(tags[o := Decimal(tag)], order + [o], tag + 1)
  {
    var tags', order' := tags[o := Decimal(tag)], order + [o];
    assert o !in order;
    assert (set i | 0 <= i < |order'| :: order'[i]) == tags.Keys + {o} by {
      assert order'[|order|] == o;
      forall x | x in tags.Keys ensures x in (set i | 0 <= i < |order'| :: order'[i]) {
        var i :| 0 <= i < |order| && order[i] == x;
        assert order'[i] == x;
      }
    }
    assert tags'.Keys == tags.Keys + {o};
  }

  class OSSerialize {
    var data: array<CChar>
    var length: nat              // bytes used, including the reserved NUL slot
    var capacity: nat
    var capacityIncrement: nat
    var tag: nat                 // the next tag to hand out
    var tags: map<object, seq<CChar>> // object identity -> the text of its tag
    ghost var order: seq<object> // objects in the order they were tagged
    ghost var text: seq<CChar>   // the text emitted so far: the buffer before its NUL

    /** The buffer invariant: the text is NUL-terminated inside the buffer,
        everything after it is zero, and tags 0, 1, 2, ... were handed out
        to the objects of `order` in that order. */
    ghost predicate Valid()
      reads this, data
    {
      BufferValid() && TagsNumbered(tags, order, tag)
    }

    /** The buffer half of the invariant. */
    ghost predicate BufferValid()
      reads this`data, this`length, this`capacity, this`capacityIncrement, this`text, data
    {
      data.Length == capacity && 1 <= length <= capacity && capacityIncrement >= 1 &&
      (forall k :: length - 1 <= k < capacity ==> data[k] == NUL) &&
      text == data[..length - 1]
    }

    /** Every recorded tag is the decimal text of a number below the
        counter, and distinct objects carry distinct tags. */
    lemma TagsDistinct(a: object, b: object)
      requires Valid() && a in tags && b in tags
      ensures exists i :: 0 <= i < tag && tags[a] == Decimal(i)
      ensures a != b ==> tags[a] != tags[b]
    {
      var i :| 0 <= i < |order| && order[i] == a;
      var j :| 0 <= j < |order| && order[j] == b;
      assert tags[a] == Decimal(i) && tags[b] == Decimal(j);
      if a != b && tags[a] == tags[b] {
        DecimalInjective(i, j);
      }
    }

    /** `withCapacity` + `initWithCapacity` */
    constructor InitWithCapacity(inCapacity: nat)
      ensures Valid() && fresh(data)
      ensures length == 1 && tag == 0 && tags == map[] && order == []
      ensures capacity == (if inCapacity == 0 then 100 else inCapacity)
      ensures capacityIncrement == capacity
      ensures forall k :: 0 <= k < capacity ==> data[k] == NUL
      ensures text == []
    {
      tag := 0;
      length := 1;
      var cap := if inCapacity != 0 then inCapacity else 100;
      capacity := cap;
      capacityIncrement := cap;
      data := new CChar[cap](_ => NUL);
      tags := map[];
      order := [];
      text := [];
    }

    method SetCapacityIncrement(increment: nat) returns (r: nat)
      requires Valid()
      modifies this`capacityIncrement
      ensures Valid()
      ensures capacityIncrement == (if increment == 0 then 256 else increment)
      ensures r == capacityIncrement
    {
      capacityIncrement := if increment != 0 then increment else 256;
      r := capacityIncrement;
    }

    /** Grows the buffer to the smallest multiple of `capacityIncrement`
        that holds `newCapacity` bytes, unless it is large enough already or
        the allocation fails (the allocator's answer is left open). */
    method EnsureCapacity(newCapacity: nat) returns (r: nat)
      requires BufferValid()
      modifies this`data, this`capacity
      ensures BufferValid() && r == capacity
      ensures newCapacity <= old(capacity) ==> capacity == old(capacity)
      ensures capacity == old(capacity) ==> data == old(data)
      ensures capacity != old(capacity) ==>
        newCapacity > old(capacity) && fresh(data) &&
        MultipleOf(capacity, capacityIncrement) &&
        newCapacity <= capacity < newCapacity + capacityIncrement &&
        data[..old(capacity)] == old(data[..]) &&
        (forall k :: old(capacity) <= k < capacity ==> data[k] == NUL)
    {
      if newCapacity <= capacity {
        return capacity;
      }
      var rounded := ((newCapacity - 1) / capacityIncrement + 1) * capacityIncrement;
      RoundUp(newCapacity, capacityIncrement);
      var granted: bool := *;
      if granted {
        var newData := new CChar[rounded](_ => NUL);
        var i := 0;
        while i < capacity
          invariant data == old(data) && capacity == old(capacity)
          invariant 0 <= i <= capacity
          invariant newData[..i] == data[..i]
          invariant forall k :: capacity <= k < rounded ==> newData[k] == NUL
        {
          newData[i] := data[i];
          i := i + 1;
        }
        assert newData[..capacity] == data[..];
        data := newData;
        capacity := rounded;
      }
      r := capacity;
    }

    method AddChar(c: CChar) returns (ok: bool)
      requires BufferValid()
      modifies this`data, this`capacity, this`length, this`text, data
      ensures BufferValid() && (data == old(data) || fresh(data))
      ensures Stepped(old(text), text, [c], ok)
      ensures ok ==> length == old(length) + 1
      ensures !ok ==>
        old(length) == old(capacity) && length == old(length) &&
        capacity == old(capacity) && data == old(data) && text == old(text)
      ensures tags == old(tags) && order == old(order) && tag == old(tag)
      ensures capacityIncrement == old(capacityIncrement)
    {
      if length >= capacity {
        var grown := EnsureCapacity(capacity + capacityIncrement);
        if length >= grown {
          return false;
        }
      }
      data[length - 1] := c;
      length := length + 1;
      text := text + [c];
      ok := true;
    }

    /** Appends the C string `s` one character at a time, stopping at the
        first character that cannot be added. */
    method AddString(s: seq<CChar>) returns (ok: bool)
      requires BufferValid()
      modifies this`data, this`capacity, this`length, this`text, data
      ensures BufferValid() && (data == old(data) || fresh(data))
      ensures Stepped(old(text), text, CStr(s), ok)
      ensures ok <==> |CStr(s)| > 0 && text == old(text) + CStr(s)
      ensures tags == old(tags) && order == old(order) && tag == old(tag)
      ensures capacityIncrement == old(capacityIncrement)
    {
      ghost var body := CStr(s);
      ok := false;
      var i := 0;
      while i < |s| && s[i] != NUL
        invariant BufferValid() && (data == old(data) || fresh(data))
        invariant tags == old(tags) && order == old(order) && tag == old(tag)
        invariant capacityIncrement == old(capacityIncrement)
        invariant 0 <= i <= |body|
        invariant text == old(text) + body[..i]
        invariant ok <==> i > 0
        decreases |s| - i
      {
        assert body[i] == s[i];
        ok := AddChar(s[i]);
        if !ok {
          return;
        }
        assert body[..i + 1] == body[..i] + [s[i]];
        i := i + 1;
      }
      assert i == |body|;
      assert body[..i] == body;
    }

    /** Looks `o` up in the tag map. A tagged object gets a reference
        marker carrying its tag; an untagged one gets the next tag and
        nothing is written. The marker's appends are not checked. */
    method PreviouslySerialized(o: object) returns (r: bool)
      requires Valid()
      modifies this`data, this`capacity, this`length, this`text, this`tag, this`tags, this`order, data
      ensures Valid() && (data == old(data) || fresh(data))
      ensures capacityIncrement == old(capacityIncrement)
      ensures r == (o in old(tags))
      ensures r ==>
        tags == old(tags) && tag == old(tag) && order == old(order) &&
        ReferenceEmitted(old(text), text, old(tags)[o])
      ensures !r ==>
        tags == old(tags)[o := Decimal(old(tag))] && tag == old(tag) + 1 &&
        order == old(order) + [o] && text == old(text) &&
        data == old(data) && data[..] == old(data[..]) && capacity == old(capacity) && length == old(length)
    {
      if o in tags {
        ghost var t0 := text;
        var tagString := tags[o];
        var _ := AddString(ReferenceOpen());
        ghost var t1 := text;
        var _ := AddString(tagString);
        ghost var t2 := text;
        var _ := AddString(ReferenceClose());
        ReferencePiecesNulFree();
        PiecesChain(t0, t1, t2, text, ReferenceOpen(), CStr(tagString), ReferenceClose());
        return true;
      }
      TagsNumberedExtend(tags, order, tag, o);
      var temp := Decimal(tag);
      tag := tag + 1;
      tags := tags[o := temp];
      order := order + [o];
      r := false;
    }

    /** `AddChar` as piece `k` of a run of `ps` after `t0`. */
    method EmitChar(ghost t0: seq<CChar>, ghost ps: seq<seq<CChar>>, ghost k: nat, c: CChar) returns (ok: bool)
      requires BufferValid()
      requires k < |ps| && |ps[|ps| - 1]| > 0 && ps[k] == [c] && text == t0 + Concat(ps[..k])
      modifies this`data, this`capacity, this`length, this`text, data
      ensures BufferValid() && (data == old(data) || fresh(data))
      ensures tags == old(tags) && order == old(order) && tag == old(tag)
      ensures Emitted(t0, ps, k, text, ok)
    {
      ok := AddChar(c);
      Step(t0, ps, k, text, ok);
    }

    /** `AddString` as piece `k` of a run of `ps` after `t0`. */
    method EmitString(ghost t0: seq<CChar>, ghost ps: seq<seq<CChar>>, ghost k: nat, s: seq<CChar>) returns (ok: bool)
      requires BufferValid()
      requires k < |ps| && |ps[|ps| - 1]| > 0 && ps[k] == CStr(s) && text == t0 + Concat(ps[..k])
      modifies this`data, this`capacity, this`length, this`text, data
      ensures BufferValid() && (data == old(data) || fresh(data))
      ensures tags == old(tags) && order == old(order) && tag == old(tag)
      ensures Emitted(t0, ps, k, text, ok)
    {
      ok := AddString(s);
      Step(t0, ps, k, text, ok);
    }

    /** `AddXMLStartTag` as piece `k` of a run of `ps` after `t0`. */
    method EmitStartTag(ghost t0: seq<CChar>, ghost ps: seq<seq<CChar>>, ghost k: nat, o: object, name: seq<CChar>) returns (ok: bool)
      requires Valid() && o in tags
      requires k < |ps| && |ps[|ps| - 1]| > 0 && ps[k] == StartTag(name, tags[o]) && text == t0 + Concat(ps[..k])
      modifies this`data, this`capacity, this`length, this`text, data
      ensures Valid() && (data == old(data) || fresh(data))
      ensures Emitted(t0, ps, k, text, ok)
    {
      ghost var u := text;
      ok := AddXMLStartTag(o, name);
      RunStepped(u, text, StartTag(name, tags[o]), ok);
      Step(t0, ps, k, text, ok);
    }

    /** `AddXMLEndTag` as piece `k` of a run of `ps` after `t0`. */
    method EmitEndTag(ghost t0: seq<CChar>, ghost ps: seq<seq<CChar>>, ghost k: nat, name: seq<CChar>) returns (ok: bool)
      requires Valid()
      requires k < |ps| && |ps[|ps| - 1]| > 0 && ps[k] == EndTag(name) && text == t0 + Concat(ps[..k])
      modifies this`data, this`capacity, this`length, this`text, data
      ensures Valid() && (data == old(data) || fresh(data))
      ensures Emitted(t0, ps, k, text, ok)
    {
      ghost var u := text;
      ok := AddXMLEndTag(name);
      RunStepped(u, text, EndTag(name), ok);
      Step(t0, ps, k, text, ok);
    }

    /** The first two pieces of a run: `<name ID="tag">` for `o`, then the
        string `str`. */
    method EmitStartTagAndString(ghost t0: seq<CChar>, ghost ps: seq<seq<CChar>>, o: object, name: seq<CChar>,
                                 str: seq<CChar>) returns (ok: bool)
      requires Valid() && o in tags
      requires 2 < |ps| && |ps[|ps| - 1]| > 0 && ps[0] == StartTag(name, tags[o]) && ps[1] == CStr(str)
      requires text == t0
      modifies this`data, this`capacity, this`length, this`text, data
      ensures Valid() && (data == old(data) || fresh(data))
      ensures Emitted(t0, ps, 1, text, ok)
    {
      assert ps[..0] == [];
      ok := EmitStartTag(t0, ps, 0, o, name);
      if !ok { return; }
      ok := EmitString(t0, ps, 1, str);
    }

    /** The last two pieces of a run: the string `str`, then `</name>`. */
    method EmitStringAndEndTag(ghost t0: seq<CChar>, ghost ps: seq<seq<CChar>>, ghost k: nat, str: seq<CChar>,
                               name: seq<CChar>) returns (ok: bool)
      requires Valid()
      requires k + 2 == |ps| && |ps[k + 1]| > 0 && ps[k] == CStr(str) && ps[k + 1] == EndTag(name)
      requires text == t0 + Concat(ps[..k])
      modifies this`data, this`capacity, this`length, this`text, data
      ensures Valid() && (data == old(data) || fresh(data))
      ensures Emitted(t0, ps, k + 1, text, ok)
    {
      ok := EmitString(t0, ps, k, str);
      if !ok { return; }
      ok := EmitEndTag(t0, ps, k + 1, name);
    }

    /** `<name ID="tag">`, with the tag recorded for `o`. */
    method AddXMLStartTag(o: object, name: seq<CChar>) returns (ok: bool)
      requires BufferValid() && o in tags
      modifies this`data, this`capacity, this`length, this`text, data
      ensures BufferValid() && (data == old(data) || fresh(data))
      ensures tags == old(tags) && order == old(order) && tag == old(tag)
      ensures AppendedPrefix(old(text), text, StartTag(name, tags[o]))
      ensures ok <==> text == old(text) + StartTag(name, tags[o])
    {
      ghost var t0, ps := text, StartTagPieces(name, tags[o]);
      assert ps[..0] == [];
      ok := EmitChar(t0, ps, 0, '<');
      if !ok { return; }
      ok := EmitString(t0, ps, 1, name);
      if !ok { return; }
      ok := EmitIdAndClose(t0, ps, tags[o]);
    }

    /** The last four pieces of a start tag: ` ID="`, the tag text, `"`, `>`. */
    method EmitIdAndClose(ghost t0: seq<CChar>, ghost ps: seq<seq<CChar>>, t: seq<CChar>) returns (ok: bool)
      requires BufferValid()
      requires |ps| == 6 && ps[2] == CStr(IdOpen()) && ps[3] == CStr(t) && ps[4] == ['"'] && ps[5] == ['>']
      requires text == t0 + Concat(ps[..2])
      modifies this`data, this`capacity, this`length, this`text, data
      ensures BufferValid() && (data == old(data) || fresh(data))
      ensures tags == old(tags) && order == old(order) && tag == old(tag)
      ensures AppendedPrefix(t0, text, Concat(ps))
      ensures ok <==> text == t0 + Concat(ps)
    {
      ok := EmitString(t0, ps, 2, IdOpen());
      if !ok { return; }
      ok := EmitString(t0, ps, 3, t);
      if !ok { return; }
      ok := EmitChar(t0, ps, 4, '"');
      if !ok { return; }
      ok := EmitChar(t0, ps, 5, '>');
      if !ok { return; }
      RunDone(t0, ps, text);
    }

    /** `</name>` */
    method AddXMLEndTag(name: seq<CChar>) returns (ok: bool)
      requires BufferValid()
      modifies this`data, this`capacity, this`length, this`text, data
      ensures BufferValid() && (data == old(data) || fresh(data))
      ensures tags == old(tags) && order == old(order) && tag == old(tag)
      ensures AppendedPrefix(old(text), text, EndTag(name))
      ensures ok <==> text == old(text) + EndTag(name)
    {
      ghost var t0, ps := text, EndTagPieces(name);
      assert ps[..0] == [];
      ok := EmitChar(t0, ps, 0, '<');
      if !ok { return; }
      ok := EmitChar(t0, ps, 1, '/');
      if !ok { return; }
      ok := EmitString(t0, ps, 2, name);
      if !ok { return; }
      ok := EmitChar(t0, ps, 3, '>');
      if !ok { return; }
      RunDone(t0, ps, text);
    }

    /** Empties the text and forgets every tag, keeping the buffer. */
    method ClearText()
      requires Valid()
      modifies this, data
      ensures Valid() && data == old(data)
      ensures capacity == old(capacity) && capacityIncrement == old(capacityIncrement)
      ensures length == 1 && tag == 0 && tags == map[] && order == []
      ensures forall k :: 0 <= k < capacity ==> data[k] == NUL
      ensures text == []
    {
      var i := 0;
      while i < capacity
        invariant data == old(data) && capacity == old(capacity) && length == old(length)
        invariant capacityIncrement == old(capacityIncrement)
        invariant 0 <= i <= capacity == data.Length
        invariant forall k :: 0 <= k < i ==> data[k] == NUL
      {
        data[i] := NUL;
        i := i + 1;
      }
      length := 1;
      tag := 0;
      tags := map[];
      order := [];
      text := [];
    }
  }
}
