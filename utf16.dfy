/**
 * Text as a browser holds it. A JavaScript string is a sequence of 16-bit
 * code units (section 6.1.4 of ECMA-262); nothing stops it from holding a
 * lone surrogate, which is why the model does not use Dafny's `char` (a
 * Unicode scalar value) for the strings a user types.
 */
module Utf16 {

  type CodeUnit = u: int | 0 <= u < 0x1_0000

  type JsString = seq<CodeUnit>

  /** A Unicode code point, surrogates included. */
  type CodePoint = c: int | 0 <= c <= 0x10_FFFF

  predicate IsLeadSurrogate(u: CodeUnit) { 0xD800 <= u <= 0xDBFF }

  predicate IsTrailSurrogate(u: CodeUnit) { 0xDC00 <= u <= 0xDFFF }

  predicate IsSurrogate(c: int) { 0xD800 <= c <= 0xDFFF }

  /**
   * The unit at index i is not half of a broken pair: a lead surrogate is
   * immediately followed by a trail surrogate, and a trail surrogate
   * immediately follows a lead surrogate.
   */
  predicate IsPairedAt(s: JsString, i: nat)
    requires i < |s|
  {
    && (IsLeadSurrogate(s[i]) ==> i + 1 < |s| && IsTrailSurrogate(s[i + 1]))
    && (IsTrailSurrogate(s[i]) ==> 0 < i && IsLeadSurrogate(s[i - 1]))
  }

  /** The string spells a sequence of Unicode scalar values: no unit is half of a broken pair. */
  predicate IsWellFormed(s: JsString) {
    forall i | 0 <= i < |s| :: IsPairedAt(s, i)
  }

  /** Text whose every character is ASCII, as every literal the components build links from is. */
  predicate IsAscii(s: string) {
    forall i | 0 <= i < |s| :: s[i] as int < 0x80
  }

  /** The code units of an ASCII literal written in the program text. */
  function Lit(s: string): (r: JsString)
    requires IsAscii(s)
    ensures |r| == |s|
    ensures forall i | 0 <= i < |s| :: r[i] == s[i] as int
    ensures HasNoSurrogates(r)
  {
    seq(|s|, i requires 0 <= i < |s| => s[i] as int)
  }

  /** The result of the CodePointAt abstract operation (section 11.1.4 of ECMA-262). */
  datatype CodePointRecord = CodePointRecord(codePoint: CodePoint, codeUnitCount: nat, isUnpairedSurrogate: bool)

  /** UTF16SurrogatePairToCodePoint (section 11.1.3 of ECMA-262). */
  function SurrogatePairToCodePoint(lead: CodeUnit, trail: CodeUnit): (c: CodePoint)
    requires IsLeadSurrogate(lead) && IsTrailSurrogate(trail)
    ensures 0x1_0000 <= c
  {
    (lead - 0xD800) * 0x400 + (trail - 0xDC00) + 0x1_0000
  }

  /** CodePointAt (section 11.1.4 of ECMA-262): the code point that starts at index k. */
  function CodePointAt(s: JsString, k: nat): (r: CodePointRecord)
    requires k < |s|
    ensures 1 <= r.codeUnitCount <= 2 && k + r.codeUnitCount <= |s|
  {
    var first := s[k];
    if !IsLeadSurrogate(first) && !IsTrailSurrogate(first) then
      CodePointRecord(first, 1, false)
    else if IsTrailSurrogate(first) || k + 1 == |s| then
      CodePointRecord(first, 1, true)
    else if !IsTrailSurrogate(s[k + 1]) then
      CodePointRecord(first, 1, true)
    else
      CodePointRecord(SurrogatePairToCodePoint(first, s[k + 1]), 2, false)
  }

  /** UTF16EncodeCodePoint (section 11.1.1 of ECMA-262). */
  function EncodeCodePoint(c: CodePoint): (r: JsString)
  {
    if c <= 0xFFFF then [c]
    else [(c - 0x1_0000) / 0x400 + 0xD800, (c - 0x1_0000) % 0x400 + 0xDC00]
  }

  /**
   * A code point read without a surrogate error is a scalar value, and
   * encoding it again gives back exactly the code units it was read from.
   */
  lemma CodePointAtRoundTrip(s: JsString, k: nat)
    requires k < |s| && !CodePointAt(s, k).isUnpairedSurrogate
    ensures !IsSurrogate(CodePointAt(s, k).codePoint)
    ensures EncodeCodePoint(CodePointAt(s, k).codePoint) == s[k..k + CodePointAt(s, k).codeUnitCount]
  {
    var r := CodePointAt(s, k);
    if r.codeUnitCount == 2 {
      var lead: int, trail: int := s[k], s[k + 1];
      var c: int := r.codePoint;
      assert c - 0x1_0000 == (lead - 0xD800) * 0x400 + (trail - 0xDC00);
      assert (c - 0x1_0000) / 0x400 == lead - 0xD800;
      assert (c - 0x1_0000) % 0x400 == trail - 0xDC00;
    }
  }

  /**
   * Reading a code point off the front of a string and carrying on with
   * the rest loses nothing: the whole is well formed exactly when the front
   * is not an unpaired surrogate and the rest is well formed.
   */
  lemma WellFormedFront(s: JsString)
    requires s != []
    ensures IsWellFormed(s) <==>
      !CodePointAt(s, 0).isUnpairedSurrogate && IsWellFormed(s[CodePointAt(s, 0).codeUnitCount..])
  {
    var n := CodePointAt(s, 0).codeUnitCount;
    var rest := s[n..];
    if !CodePointAt(s, 0).isUnpairedSurrogate {
      if IsWellFormed(s) {
        forall i | 0 <= i < |rest|
          ensures IsPairedAt(rest, i)
        {
          assert IsPairedAt(s, i + n);
          if i + 1 < |rest| {
            assert rest[i + 1] == s[i + 1 + n];
          }
        }
      }
      if IsWellFormed(rest) {
        forall i | 0 <= i < |s|
          ensures IsPairedAt(s, i)
        {
          if i >= n {
            assert IsPairedAt(rest, i - n);
            if i + 1 < |s| {
              assert s[i + 1] == rest[i + 1 - n];
            }
          }
        }
      }
    } else {
      assert !IsPairedAt(s, 0);
    }
  }

  /** No unit of s is a surrogate (true of every ASCII literal). */
  predicate HasNoSurrogates(s: JsString) {
    forall i | 0 <= i < |s| :: !IsSurrogate(s[i])
  }

  /**
   * Joining two strings where at least one side of the seam is not a
   * surrogate neither makes nor breaks a pair: the join is well formed
   * exactly when both parts are.
   */
  lemma WellFormedConcat(a: JsString, b: JsString)
    requires a == [] || b == [] || !IsSurrogate(a[|a| - 1]) || !IsSurrogate(b[0])
    ensures IsWellFormed(a + b) <==> IsWellFormed(a) && IsWellFormed(b)
  {
    var ab := a + b;
    if IsWellFormed(ab) {
      forall i | 0 <= i < |a| ensures IsPairedAt(a, i) {
        assert IsPairedAt(ab, i);
      }
      forall i | 0 <= i < |b| ensures IsPairedAt(b, i) {
        assert IsPairedAt(ab, |a| + i);
        assert ab[|a| + i] == b[i];
        if i + 1 < |b| { assert ab[|a| + i + 1] == b[i + 1]; }
        if 0 < i { assert ab[|a| + i - 1] == b[i - 1]; }
      }
    }
    if IsWellFormed(a) && IsWellFormed(b) {
      forall i | 0 <= i < |ab| ensures IsPairedAt(ab, i) {
        if i < |a| {
          assert IsPairedAt(a, i);
        } else {
          assert IsPairedAt(b, i - |a|);
          if i + 1 < |ab| { assert ab[i + 1] == b[i + 1 - |a|]; }
        }
      }
    }
  }

  lemma WellFormedNoSurrogates(s: JsString)
    requires HasNoSurrogates(s)
    ensures IsWellFormed(s)
  {
    forall i | 0 <= i < |s| ensures IsPairedAt(s, i) {
      assert !IsSurrogate(s[i]);
    }
  }

  /** A character a literal does not hold is not among its code units. */
  lemma LitExcludes(s: string, c: char)
    requires IsAscii(s) && c as int < 0x80 && c !in s
    ensures c as int !in Lit(s)
  {
    forall i | 0 <= i < |s| ensures Lit(s)[i] != c as int {
      assert s[i] != c;
    }
  }

  /** Writing two literals one after the other is writing their concatenation. */
  lemma LitConcat(a: string, b: string)
    requires IsAscii(a) && IsAscii(b)
    ensures IsAscii(a + b)
    ensures Lit(a + b) == Lit(a) + Lit(b)
  {
  }
}
