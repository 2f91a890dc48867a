/** The string object (OSString.cpp): a counted object holding `length`
    bytes of storage, the last of which is the terminating NUL. The storage
    is either an owned copy or, for a "no copy" string, the caller's own
    array. */
module OSStrings {
  import opened CStrings
  import opened Serializers
  import opened OSObjects

  /** The three characters XML escapes in string values, and what each
      becomes. */
  function LtEntity(): seq<CChar> { "&lt;" }
  function GtEntity(): seq<CChar> { "&gt;" }
  function AmpEntity(): seq<CChar> { "&amp;" }

  lemma EntitiesNulFree()
    ensures CStr(LtEntity()) == LtEntity() && CStr(GtEntity()) == GtEntity() && CStr(AmpEntity()) == AmpEntity()
  {
    CStrOfNulFree(LtEntity());
    CStrOfNulFree(GtEntity());
    CStrOfNulFree(AmpEntity());
  }

  /** What `serialize` writes for one byte of the string. */
  function Escape(c: CChar): (r: seq<CChar>)
    ensures |r| > 0
  {
    if c == '<' then LtEntity()
    else if c == '>' then GtEntity()
    else if c == '&' then AmpEntity()
    else [c]
  }

  /** The escaped text of `body`, byte by byte. */
  function Escaped(body: seq<CChar>): seq<CChar>
  {
    if |body| == 0 then [] else Escape(body[0]) + Escaped(body[1..])
  }

  lemma {:induction false} EscapedAppend(a: seq<CChar>, c: CChar)
    ensures Escaped(a + [c]) == Escaped(a) + Escape(c)
  {
    if |a| == 0 {
      assert (a + [c])[1..] == [];
    } else {
      assert (a + [c])[1..] == a[1..] + [c];
      EscapedAppend(a[1..], c);
    }
  }

  /** Escaping a prefix gives a prefix of the escaped whole. */
  lemma {:induction false} EscapedPrefix(s: seq<CChar>, n: nat)
    requires n <= |s|
    ensures Escaped(s[..n]) <= Escaped(s)
  {
    if n > 0 {
      var p := s[..n];
      assert p[0] == s[0] && p[1..] == s[1..][..n - 1];
      EscapedPrefix(s[1..], n - 1);
    }
  }

  /** Reading escaped text back: each entity becomes its character again. */
  function Unescape(s: seq<CChar>): seq<CChar>
  {
    if |s| == 0 then []
    else if |s| >= 4 && s[..4] == LtEntity() then ['<'] + Unescape(s[4..])
    else if |s| >= 4 && s[..4] == GtEntity() then ['>'] + Unescape(s[4..])
    else if |s| >= 5 && s[..5] == AmpEntity() then ['&'] + Unescape(s[5..])
    else [s[0]] + Unescape(s[1..])
  }

  /** Reading back one escaped character. */
  lemma UnescapeOne(c: CChar, rest: seq<CChar>)
    ensures Unescape(Escape(c) + rest) == [c] + Unescape(rest)
  {
    var s := Escape(c) + rest;
    if c == '<' {
      assert s[..4] == LtEntity() && s[4..] == rest;
    } else if c == '>' {
      assert s[..4] == GtEntity() && s[4..] == rest;
    } else if c == '&' {
      assert s[..5] == AmpEntity() && s[5..] == rest;
      assert s[..4] != LtEntity() && s[..4] != GtEntity() by {
        assert s[..4][1] == 'a';
      }
    } else {
      assert s[0] == c && s[1..] == rest;
      assert |s| >= 4 ==> s[..4][0] == c;
      assert |s| >= 5 ==> s[..5][0] == c;
    }
  }

  /** Escaping loses nothing: the original bytes can be read back. */
  lemma {:induction false} UnescapeEscaped(body: seq<CChar>)
    ensures Unescape(Escaped(body)) == body
  {
    if |body| > 0 {
      UnescapeOne(body[0], Escaped(body[1..]));
      UnescapeEscaped(body[1..]);
      assert body == [body[0]] + body[1..];
    }
  }

  /** The pieces of the `string` element for `body` with tag `t`. */
  function StringPieces(body: seq<CChar>, t: seq<CChar>): seq<seq<CChar>>
  {
    [StartTag(StringTag(), t), Escaped(body), EndTag(StringTag())]
  }

  function StringText(body: seq<CChar>, t: seq<CChar>): seq<CChar>
  {
    Concat(StringPieces(body, t))
  }

  class OSString {
    const base: OSObject        // the object part: the retain count
    var length: nat             // bytes of storage in use, the NUL included
    var str: array?<CChar>
    var noCopy: bool            // `flags & kOSStringNoCopy`
    ghost var storageFrees: nat // how many times the storage was given back

    /** `new OSString`: zero-filled memory, one reference. */
    constructor()
      ensures fresh(base) && base.retainCount == 1 && base.freeCount == 0
      ensures length == 0 && str == null && !noCopy && storageFrees == 0
    {
      base := new OSObject();
      length := 0;
      str := null;
      noCopy := false;
      storageFrees := 0;
    }

    /** Storage is present and its last byte in use is the NUL. */
    ghost predicate Valid()
      reads this, str
    {
      str != null && 1 <= length <= str.Length && str[length - 1] == NUL
    }

    /** The NUL at `length - 1` is the first one: `length - 1` is `strlen`. */
    ghost predicate Terminated()
      reads this, str
    {
      Valid() && NUL !in str[..length - 1]
    }

    /** The bytes of the string, without the NUL. */
    ghost function Content(): seq<CChar>
      requires Valid()
      reads this, str
    {
      str[..length - 1]
    }

    lemma ContentIsCString()
      ensures Terminated() ==> CStr(str[..]) == Content()
    {
      if Terminated() {
        ContentIsCString1();
      }
    }

    lemma ContentIsCString1()
      requires Terminated()
      ensures CStr(str[..]) == Content()
    {
      assert str[..] == Content() + [NUL] + str[length..];
      CStrOfTerminated(Content(), str[length..]);
    }

    /** `initWithCString`: fails on null; otherwise measures the
        C string, and fails again if no storage can be had (the allocator's
        answer is left open); on success the storage is an exact copy, the
        NUL included. */
    method InitWithCString(cString: array?<CChar>) returns (ok: bool)
      requires cString != null ==> NUL in cString[..]
      modifies this`length, this`str
      ensures cString == null ==> !ok && length == old(length) && str == old(str)
      ensures cString != null ==> length == StrLen(cString[..]) + 1
      ensures ok <==> cString != null && str != null
      ensures ok ==> fresh(str) && str.Length == length && str[..] == cString[..length]
      ensures ok ==> Terminated() && Content() == CStr(cString[..])
    {
      if cString == null {
        return false;
      }
      ghost var s := cString[..];
      var n := StrLen(cString[..]);
      length := n + 1;
      var granted: bool := *;
      if !granted {
        str := null;
        return false;
      }
      assert s[n] == NUL && s[..n] == CStr(s);
      var copy := new CChar[length](k requires 0 <= k < n + 1 reads cString => cString[k]);
      str := copy;
      assert str[..] == s[..length];
      assert str[..length - 1] == CStr(s);
      ok := true;
    }

    /** `initWithCStringNoCopy`: the string takes the caller's storage as
        its own and is marked "no copy". */
    method InitWithCStringNoCopy(cString: array?<CChar>) returns (ok: bool)
      requires cString != null ==> NUL in cString[..]
      modifies this`length, this`str, this`noCopy
      ensures ok <==> cString != null
      ensures !ok ==> length == old(length) && str == old(str) && noCopy == old(noCopy)
      ensures ok ==> length == StrLen(cString[..]) + 1 && noCopy && str == cString
      ensures ok ==> Terminated() && Content() == CStr(cString[..])
    {
      if cString == null {
        return false;
      }
      ghost var s := cString[..];
      length := StrLen(cString[..]) + 1;
      noCopy := true;
      str := cString;
      assert s[length - 1] == NUL && s[..length - 1] == CStr(s);
      ok := true;
    }

    /** `getLength`: `length - 1` as an unsigned int, which is `strlen` of
        the storage when the string is terminated. */
    function GetLength(): (r: nat)
      reads this, str
      ensures length >= 1 ==> r == length - 1
      ensures length == 0 ==> r == 0xffff_ffff
      ensures Terminated() ==> r == |Content()| && r == StrLen(str[..])
    {
      ContentIsCString();
      if length == 0 then 0xffff_ffff else length - 1
    }

    /** `getChar(index)`: the byte at `index` within the storage in use,
        NUL past it. */
    function GetChar(index: nat): (r: CChar)
      requires Valid()
      reads this, str
      ensures index < |Content()| ==> r == Content()[index]
      ensures index == |Content()| ==> r == NUL
      ensures index >= length ==> r == NUL
    {
      if index < length then str[index] else NUL
    }

    /** `setChar(c, index)`: writes only into owned storage and only before
        the NUL; anything else is refused and changes nothing. */
    method SetChar(c: CChar, index: nat) returns (ok: bool)
      requires Valid()
      modifies str
      ensures ok <==> !noCopy && index < length - 1
      ensures ok ==> str[..] == old(str[..])[index := c]
      ensures !ok ==> str[..] == old(str[..])
      ensures Valid()
      ensures ok ==> Content() == old(Content())[index := c]
      ensures old(Terminated()) && c != NUL ==> Terminated()
    {
      if !noCopy && index < length - 1 {
        str[index] := c;
        assert str[..length - 1] == old(str[..length - 1])[index := c];
        return true;
      }
      ok := false;
    }

    /** `isEqualTo(const OSString *)`: equal lengths, then `strncmp` over
        `length` bytes. For terminated strings this is equality of the
        contents. */
    function IsEqualTo(other: OSString): (r: bool)
      requires Valid() && other.Valid()
      reads this, str, other, other.str
      ensures Terminated() && other.Terminated() ==> (r <==> Content() == other.Content())
    {
      if length != other.length then
        assert Terminated() && other.Terminated() ==> Content() != other.Content() by {
          if Terminated() && other.Terminated() {
            assert |Content()| != |other.Content()|;
          }
        }
        false
      else
        SameLengthEquality(other);
        StrNEq(str[..], other.str[..], length)
    }

    lemma SameLengthEquality(other: OSString)
      requires Valid() && other.Valid() && length == other.length
      ensures Terminated() && other.Terminated() ==>
        (StrNEq(str[..], other.str[..], length) <==> Content() == other.Content())
    {
      if Terminated() && other.Terminated() {
        assert other.str[..][length - 1] == NUL;
        StrNEqMeansSameCString(str[..], other.str[..], length);
        other.ContentIsCString1();
      }
    }

    /** `isEqualTo(const char *)`: `strncmp` over `length` bytes, which for
        a terminated string compares its content with the C string. */
    function IsEqualToCString(s: seq<CChar>): (r: bool)
      requires Valid()
      reads this, str
      ensures Terminated() && NUL in s ==> (r <==> Content() == CStr(s))
    {
      CStringEquality(s);
      StrNEq(str[..], s, length)
    }

    lemma CStringEquality(s: seq<CChar>)
      requires Valid()
      ensures Terminated() && NUL in s ==> (StrNEq(str[..], s, length) <==> Content() == CStr(s))
    {
      if Terminated() && NUL in s {
        StrNEqMeansSameCString(str[..], s, length);
      }
    }

    /** The `isEqualTo(const OSMetaClassBase *)` and `isEqualTo(const
        OSData *)` overloads: never equal. */
    function IsEqualToObject(o: object): (r: bool)
      ensures !r
    {
      false
    }

    function IsEqualToData(o: object): (r: bool)
      ensures !r
    {
      false
    }

    /** `OSString::free`: gives the storage back unless it belongs to the
        caller or was never allocated, then frees the object. */
    method Free()
      modifies this`storageFrees, base`freeCount
      ensures storageFrees == old(storageFrees) + (if !noCopy && str != null then 1 else 0)
      ensures base.freeCount == old(base.freeCount) + 1
    {
      if !noCopy && str != null {
        storageFrees := storageFrees + 1;
      }
      base.Free();
    }

    /** `release()` on a string: the last release runs `OSString::free`. */
    method Release() returns (outcome: ReleaseOutcome)
      modifies base`retainCount, this`storageFrees, base`freeCount
      ensures ReleaseStep(base.retainCount, outcome) == ReleaseWord(old(base.retainCount), false, 1)
      ensures base.freeCount == old(base.freeCount) + (if outcome == MustFree then 1 else 0)
      ensures storageFrees == old(storageFrees) + (if outcome == MustFree && !noCopy && str != null then 1 else 0)
    {
      outcome := base.TaggedRelease(false, 1);
      if outcome == MustFree {
        Free();
      }
    }

    /** `OSString::serialize`: a reference to an earlier serialization, or
        a `string` element holding the escaped bytes before the first NUL. */
    method Serialize(s: OSSerialize) returns (r: bool)
      requires s.Valid() && Valid() && s.data != str
      modifies s`data, s`capacity, s`length, s`text, s`tag, s`tags, s`order, s.data
      ensures s.Valid() && s.capacityIncrement == old(s.capacityIncrement)
      ensures base in old(s.tags) ==>
        r && s.tags == old(s.tags) && s.tag == old(s.tag) &&
        ReferenceEmitted(old(s.text), s.text, old(s.tags)[base])
      ensures base !in old(s.tags) ==>
        s.tags == old(s.tags)[base := Decimal(old(s.tag))] && s.tag == old(s.tag) + 1 &&
        AppendedPrefix(old(s.text), s.text, StringText(CStr(str[..]), Decimal(old(s.tag)))) &&
        (r <==> s.text == old(s.text) + StringText(CStr(str[..]), Decimal(old(s.tag))))
    {
      r := s.PreviouslySerialized(base);
      if r {
        return;
      }
      r := EmitString(s);
    }

    /** The `string` element of a string seen for the first time. */
    method EmitString(s: OSSerialize) returns (r: bool)
      requires s.Valid() && Valid() && s.data != str && base in s.tags
      modifies s`data, s`capacity, s`length, s`text, s.data
      ensures s.Valid()
      ensures AppendedPrefix(old(s.text), s.text, StringText(CStr(str[..]), s.tags[base]))
      ensures r <==> s.text == old(s.text) + StringText(CStr(str[..]), s.tags[base])
    {
      ghost var t0, ps := s.text, StringPieces(CStr(str[..]), s.tags[base]);
      assert ps[..0] == [];
      EndTagText(StringTag());
      r := s.EmitStartTag(t0, ps, 0, base, StringTag());
      if !r { return; }
      ConcatStep(ps, 1);
      r := EmitEscaped(s, t0, ps);
      if !r { return; }
      r := s.EmitEndTag(t0, ps, 2, StringTag());
      if !r { return; }
      RunDone(t0, ps, s.text);
    }

    /** The loop of `serialize` over the bytes before the NUL, as piece 1
        of the run `ps`. */
    method EmitEscaped(s: OSSerialize, ghost t0: seq<CChar>, ghost ps: seq<seq<CChar>>) returns (r: bool)
      requires s.Valid() && Valid() && s.data != str
      requires |ps| == 3 && |ps[2]| > 0 && ps[1] == Escaped(CStr(str[..]))
      requires s.text == t0 + Concat(ps[..1])
      modifies s`data, s`capacity, s`length, s`text, s.data
      ensures s.Valid() && (s.data == old(s.data) || fresh(s.data))
      ensures s.tags == old(s.tags) && s.order == old(s.order) && s.tag == old(s.tag)
      ensures Emitted(t0, ps, 1, s.text, r)
    {
      ghost var body, t1 := CStr(str[..]), s.text;
      var i := 0;
      while str[i] != NUL
        invariant s.BufferValid() && (s.data == old(s.data) || fresh(s.data)) && s.data != str
        invariant s.tags == old(s.tags) && s.order == old(s.order) && s.tag == old(s.tag)
        invariant 0 <= i <= |body| < str.Length
        invariant s.text == t1 + Escaped(body[..i])
        decreases |body| - i
      {
        r := EmitEscapedChar(s, t1, body, i, str[i]);
        if !r {
          RunStepped(t1, s.text, Escaped(body), false);
          Step(t0, ps, 1, s.text, false);
          return;
        }
        i := i + 1;
      }
      assert body[..i] == body;
      r := true;
      Step(t0, ps, 1, s.text, true);
    }
  }

  /** One pass of the escape loop: the byte `c` at index `i` of `body`,
      written as itself or as its entity. */
  method EmitEscapedChar(s: OSSerialize, ghost t1: seq<CChar>, ghost body: seq<CChar>, ghost i: nat, c: CChar) returns (r: bool)
    requires s.BufferValid() && i < |body| && c == body[i]
    requires s.text == t1 + Escaped(body[..i])
    modifies s`data, s`capacity, s`length, s`text, s.data
    ensures s.BufferValid() && (s.data == old(s.data) || fresh(s.data))
    ensures s.tags == old(s.tags) && s.order == old(s.order) && s.tag == old(s.tag)
    ensures r ==> s.text == t1 + Escaped(body[..i + 1])
    ensures !r ==> AppendedPrefix(t1, s.text, Escaped(body)) && s.text != t1 + Escaped(body)
  {
    r := AddEscape(s, c);
    EscapeStep(t1, body, i, s.text, r);
  }

  /** What one pass of the escape loop leaves behind. */
  lemma EscapeStep(t1: seq<CChar>, body: seq<CChar>, i: nat, t: seq<CChar>, r: bool)
    requires i < |body| && Stepped(t1 + Escaped(body[..i]), t, Escape(body[i]), r)
    ensures r ==> t == t1 + Escaped(body[..i + 1])
    ensures !r ==> AppendedPrefix(t1, t, Escaped(body)) && t != t1 + Escaped(body)
  {
    var a, c := body[..i], body[i];
    PrefixNext(body, i);
    EscapedAppend(a, c);
    if r {
      ConcatAssoc(t1, Escaped(a), Escape(c));
    } else {
      EscapeFailed(t1, body, i, t);
    }
  }

  /** The branches of the escape loop: the entity of a markup byte, or the
      byte itself. */
  method AddEscape(s: OSSerialize, c: CChar) returns (r: bool)
    requires s.BufferValid()
    modifies s`data, s`capacity, s`length, s`text, s.data
    ensures s.BufferValid() && (s.data == old(s.data) || fresh(s.data))
    ensures s.tags == old(s.tags) && s.order == old(s.order) && s.tag == old(s.tag)
    ensures Stepped(old(s.text), s.text, Escape(c), r)
  {
    EntitiesNulFree();
    if c == '<' {
      r := s.AddString(LtEntity());
    } else if c == '>' {
      r := s.AddString(GtEntity());
    } else if c == '&' {
      r := s.AddString(AmpEntity());
    } else {
      r := s.AddChar(c);
    }
  }

  /** A failed append inside the escape loop leaves the text short of the
      escaped whole but still a prefix of it. */
  lemma EscapeFailed(t1: seq<CChar>, body: seq<CChar>, i: nat, t: seq<CChar>)
    requires i < |body|
    requires Stepped(t1 + Escaped(body[..i]), t, Escape(body[i]), false)
    requires Escaped(body[..i + 1]) == Escaped(body[..i]) + Escape(body[i])
    ensures AppendedPrefix(t1, t, Escaped(body)) && t != t1 + Escaped(body)
  {
    EscapedPrefix(body, i + 1);
    PrefixInside(t1, Escaped(body[..i]), Escape(body[i]), Escaped(body), t);
  }

  /** A strict prefix of a non-empty piece `e` that sits inside `whole`
      after `done`. */
  lemma PrefixInside(t1: seq<CChar>, done: seq<CChar>, e: seq<CChar>, whole: seq<CChar>, t: seq<CChar>)
    requires |e| > 0 && done + e <= whole
    requires Stepped(t1 + done, t, e, false)
    ensures AppendedPrefix(t1, t, whole) && t != t1 + whole
  {
    var j := |t| - |t1| - |done|;
    assert t == t1 + (done + e[..j]);
    assert done + e[..j] == whole[..|done| + j];
  }
}
