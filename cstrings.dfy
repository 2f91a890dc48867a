/** C characters and NUL-terminated strings, the representation every other
    module uses for text. A C `char` is one byte; the model keeps it as a
    Dafny `char` below 0x100 so that literals such as "<string" can be
    written directly. */
module CStrings {

  /** One byte of C text. */
  type CChar = c: char | c as int < 0x100 witness '\0'

  const NUL: CChar := '\0'

  /** The bytes of `s` before its first NUL: what `strlen` measures and what
      a C string "contains". A sequence without a NUL is taken whole. */
  function CStr(s: seq<CChar>): (r: seq<CChar>)
    ensures r <= s
    ensures NUL !in r
    ensures |r| < |s| ==> s[|r|] == NUL
  {
    if |s| == 0 || s[0] == NUL then [] else [s[0]] + CStr(s[1..])
  }

  /** `strlen(s)` */
  function StrLen(s: seq<CChar>): nat
  {
    |CStr(s)|
  }

  /** The bytes before the first NUL are the whole string when `s` has no NUL. */
  lemma {:induction false} CStrOfNulFree(s: seq<CChar>)
    requires NUL !in s
    ensures CStr(s) == s
  {
    if |s| > 0 {
      assert NUL !in s[1..];
      CStrOfNulFree(s[1..]);
    }
  }

  /** `CStr` of a terminated string stops at its terminator. */
  lemma {:induction false} CStrOfTerminated(body: seq<CChar>, rest: seq<CChar>)
    requires NUL !in body
    ensures CStr(body + [NUL] + rest) == body
  {
    if |body| > 0 {
      assert (body + [NUL] + rest)[1..] == body[1..] + [NUL] + rest;
      assert NUL !in body[1..];
      CStrOfTerminated(body[1..], rest);
    }
  }

  /** `strncmp(x, y, n) == 0`: the first `n` characters agree, where the
      comparison stops early, successfully, after a NUL common to both. */
  function StrNEq(x: seq<CChar>, y: seq<CChar>, n: nat): bool
    decreases n
  {
    n == 0 ||
    (|x| > 0 && |y| > 0 && x[0] == y[0] && (x[0] == NUL || StrNEq(x[1..], y[1..], n - 1)))
  }

  /** When `x` holds a C string whose terminator sits at index `n - 1`, the
      bounded comparison `strncmp(x, y, n) == 0` holds exactly when the C
      string in `y` has the same bytes. */
  lemma {:induction false} StrNEqMeansSameCString(x: seq<CChar>, y: seq<CChar>, n: nat)
    requires 1 <= n <= |x|
    requires x[n - 1] == NUL && NUL !in x[..n - 1]
    requires NUL in y
    ensures StrNEq(x, y, n) <==> CStr(y) == x[..n - 1]
  {
    if n == 1 {
      assert x[0] == NUL;
      if y[0] == NUL {
        assert CStr(y) == [];
      } else {
        assert CStr(y) != [] && x[..0] == [];
      }
    } else {
      assert x[0] != NUL by { assert x[0] == x[..n - 1][0]; }
      if |y| > 0 && y[0] == x[0] {
        assert x[1..][n - 2] == NUL;
        assert x[1..][..n - 2] == x[..n - 1][1..];
        assert NUL !in x[1..][..n - 2];
        assert NUL in y[1..] by {
          var k :| 0 <= k < |y| && y[k] == NUL;
          assert k > 0 && y[1..][k - 1] == NUL;
        }
        StrNEqMeansSameCString(x[1..], y[1..], n - 1);
        assert CStr(y) == [y[0]] + CStr(y[1..]);
        assert x[..n - 1] == [x[0]] + x[1..][..n - 2];
      } else {
        assert !StrNEq(x, y, n);
        assert |y| > 0 by { assert NUL in y; }
        assert CStr(y) == [] || CStr(y)[0] == y[0];
        assert x[..n - 1][0] == x[0];
      }
    }
  }

  /** A prefix grown by the next element. */
  lemma PrefixNext<T>(s: seq<T>, i: nat)
    requires i < |s|
    ensures s[..i + 1] == s[..i] + [s[i]]
  {
  }

  lemma ConcatAssoc<T>(x: seq<T>, y: seq<T>, z: seq<T>)
    ensures (x + y) + z == x + (y + z)
  {
  }

  /** `s` read back to front. */
  function Reverse<T>(s: seq<T>): (r: seq<T>)
    ensures |r| == |s|
    ensures forall k :: 0 <= k < |s| ==> r[k] == s[|s| - 1 - k]
  {
    if |s| == 0 then [] else Reverse(s[1..]) + [s[0]]
  }
}
