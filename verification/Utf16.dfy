// Removing from a string what a jsonb column cannot hold: NUL and surrogates that are
// not part of a pair (section 3.9 of the Unicode Standard).

module Utf16 {
  import opened JsStrings

  predicate IsHigh(u: CodeUnit) {
    0xD800 <= u <= 0xDBFF
  }

  predicate IsLow(u: CodeUnit) {
    0xDC00 <= u <= 0xDFFF
  }

  predicate IsPlain(u: CodeUnit) {
    u != 0 && !IsHigh(u) && !IsLow(u)
  }

  /** What the pattern matches at position i; look-ahead and look-behind see the original string. */
  predicate Unrepresentable(s: JsString, i: nat)
    requires i < |s|
  {
    || s[i] == 0
    || (IsHigh(s[i]) && !(i + 1 < |s| && IsLow(s[i + 1])))
    || (IsLow(s[i]) && !(i > 0 && IsHigh(s[i - 1])))
  }

  function StripFrom(s: JsString, i: nat): JsString
    requires i <= |s|
    decreases |s| - i
  {
    if i == |s| then [] else (if Unrepresentable(s, i) then [] else [s[i]]) + StripFrom(s, i + 1)
  }

  /** Replaces every match by nothing. */
  function Strip(s: JsString): JsString {
    StripFrom(s, 0)
  }

  /** A sequence of plain units and surrogate pairs. */
  predicate WellFormed(s: JsString) {
    if s == [] then true
    else if IsPlain(s[0]) then WellFormed(s[1..])
    else |s| >= 2 && IsHigh(s[0]) && IsLow(s[1]) && WellFormed(s[2..])
  }

  /** Reading from the left, keeps exactly the plain units and the adjacent pairs, in order. */
  function KeepWellFormed(s: JsString): JsString {
    if s == [] then []
    else if IsPlain(s[0]) then [s[0]] + KeepWellFormed(s[1..])
    else if |s| >= 2 && IsHigh(s[0]) && IsLow(s[1]) then [s[0], s[1]] + KeepWellFormed(s[2..])
    else KeepWellFormed(s[1..])
  }

  /** Position i does not fall inside a pair. */
  predicate Boundary(s: JsString, i: nat) {
    i <= |s| && (0 < i < |s| ==> !(IsHigh(s[i - 1]) && IsLow(s[i])))
  }

  lemma {:induction false} StripFromKeeps(s: JsString, i: nat)
    requires Boundary(s, i)
    ensures StripFrom(s, i) == KeepWellFormed(s[i..])
    decreases |s| - i
  {
    if i < |s| {
      if i + 1 < |s| && IsHigh(s[i]) && IsLow(s[i + 1]) {
        StripFromKeeps(s, i + 2);
        assert StripFrom(s, i + 1) == [s[i + 1]] + StripFrom(s, i + 2);
        assert s[i..][2..] == s[i + 2..];
      } else {
        StripFromKeeps(s, i + 1);
        assert s[i..][1..] == s[i + 1..];
      }
    }
  }

  /** Matching position by position keeps what reading from the left keeps. */
  lemma StripKeepsWellFormedParts(s: JsString)
    ensures Strip(s) == KeepWellFormed(s)
  {
    StripFromKeeps(s, 0);
    assert s[0..] == s;
  }

  lemma {:induction false} KeptIsWellFormed(s: JsString)
    ensures WellFormed(KeepWellFormed(s))
    decreases |s|
  {
    if s != [] {
      KeptIsWellFormed(s[1..]);
      if |s| >= 2 && IsHigh(s[0]) && IsLow(s[1]) {
        KeptIsWellFormed(s[2..]);
        assert ([s[0], s[1]] + KeepWellFormed(s[2..]))[2..] == KeepWellFormed(s[2..]);
      } else if IsPlain(s[0]) {
        assert ([s[0]] + KeepWellFormed(s[1..]))[1..] == KeepWellFormed(s[1..]);
      }
    }
  }

  lemma {:induction false} WellFormedIsKept(s: JsString)
    requires WellFormed(s)
    ensures KeepWellFormed(s) == s
    decreases |s|
  {
    if s != [] {
      if IsPlain(s[0]) {
        WellFormedIsKept(s[1..]);
      } else {
        WellFormedIsKept(s[2..]);
        assert s == [s[0], s[1]] + s[2..];
      }
    }
  }

  /** One pass is enough, changes exactly the malformed strings, and a second pass changes nothing. */
  lemma StripTheorem(s: JsString)
    ensures WellFormed(Strip(s))
    ensures Strip(s) == s <==> WellFormed(s)
    ensures Strip(Strip(s)) == Strip(s)
  {
    StripKeepsWellFormedParts(s);
    KeptIsWellFormed(s);
    StripKeepsWellFormedParts(Strip(s));
    WellFormedIsKept(Strip(s));
    if WellFormed(s) {
      WellFormedIsKept(s);
    }
  }

  lemma {:induction false} StripFromLength(s: JsString, i: nat)
    requires i <= |s|
    ensures |StripFrom(s, i)| <= |s| - i
    ensures |StripFrom(s, i)| == |s| - i <==> forall k | i <= k < |s| :: !Unrepresentable(s, k)
    decreases |s| - i
  {
    if i < |s| {
      StripFromLength(s, i + 1);
    }
  }

  lemma {:induction false} StripFromAll(s: JsString, i: nat)
    requires i <= |s| && forall k | i <= k < |s| :: !Unrepresentable(s, k)
    ensures StripFrom(s, i) == s[i..]
    decreases |s| - i
  {
    if i < |s| {
      StripFromAll(s, i + 1);
    }
  }

  /** Well-formed means: no NUL and no unpaired surrogate at any position. */
  lemma WellFormedMeansRepresentable(s: JsString)
    ensures WellFormed(s) <==> forall i | 0 <= i < |s| :: !Unrepresentable(s, i)
  {
    StripTheorem(s);
    StripFromLength(s, 0);
    if forall i | 0 <= i < |s| :: !Unrepresentable(s, i) {
      StripFromAll(s, 0);
      assert s[0..] == s;
    }
  }

  /** No NUL, and a surrogate is half of a high-low pair; the ranges of section 3.9 of the Unicode Standard. */
  predicate CleanAt(s: JsString, i: nat)
    requires i < |s|
  {
    && s[i] != 0
    && (0xD800 <= s[i] <= 0xDBFF ==> i + 1 < |s| && 0xDC00 <= s[i + 1] <= 0xDFFF)
    && (0xDC00 <= s[i] <= 0xDFFF ==> i > 0 && 0xD800 <= s[i - 1] <= 0xDBFF)
  }

  ghost predicate IsClean(s: JsString) {
    forall i | 0 <= i < |s| :: CleanAt(s, i)
  }

  lemma CleanExactly(s: JsString)
    ensures IsClean(s) <==> WellFormed(s)
  {
    WellFormedMeansRepresentable(s);
    forall i | 0 <= i < |s| ensures CleanAt(s, i) <==> !Unrepresentable(s, i) {}
  }

  /** What one pass leaves is clean; exactly the clean strings are left as they are. */
  lemma StrippedIsClean(s: JsString)
    ensures IsClean(Strip(s))
    ensures Strip(s) == s <==> IsClean(s)
  {
    StripTheorem(s);
    CleanExactly(s);
    CleanExactly(Strip(s));
  }

  function Ordinary(s: JsString): JsString {
    if s == [] then []
    else
      var last := s[|s| - 1];
      Ordinary(s[..|s| - 1]) + if last == 0 || 0xD800 <= last <= 0xDFFF then [] else [last]
  }

  lemma {:induction false} OrdinaryFront(u: CodeUnit, s: JsString)
    ensures Ordinary([u] + s) == (if u == 0 || 0xD800 <= u <= 0xDFFF then [] else [u]) + Ordinary(s)
    decreases |s|
  {
    if s == [] {
      assert [u] + s == [u] && [u][..0] == [];
    } else {
      OrdinaryFront(u, s[..|s| - 1]);
      assert ([u] + s)[..|s|] == [u] + s[..|s| - 1];
    }
  }

  lemma PairIsNotOrdinary(a: CodeUnit, b: CodeUnit, s: JsString)
    requires IsHigh(a) && IsLow(b)
    ensures Ordinary([a, b] + s) == Ordinary(s)
  {
    assert [a, b] + s == [a] + ([b] + s);
    OrdinaryFront(a, [b] + s);
    OrdinaryFront(b, s);
  }

  lemma {:induction false} OrdinaryUnitsAreKept(s: JsString)
    ensures Ordinary(KeepWellFormed(s)) == Ordinary(s)
    decreases |s|
  {
    if s == [] {
    } else if !IsPlain(s[0]) && |s| >= 2 && IsHigh(s[0]) && IsLow(s[1]) {
      OrdinaryUnitsAreKept(s[2..]);
      assert s == [s[0], s[1]] + s[2..];
      PairIsNotOrdinary(s[0], s[1], s[2..]);
      PairIsNotOrdinary(s[0], s[1], KeepWellFormed(s[2..]));
    } else {
      OrdinaryUnitsAreKept(s[1..]);
      assert s == [s[0]] + s[1..];
      OrdinaryFront(s[0], s[1..]);
      OrdinaryFront(s[0], KeepWellFormed(s[1..]));
    }
  }

  /** Every unit that is neither NUL nor a surrogate is kept, in order. */
  lemma StripKeepsOrdinaryUnits(s: JsString)
    ensures Ordinary(Strip(s)) == Ordinary(s)
  {
    StripKeepsWellFormedParts(s);
    OrdinaryUnitsAreKept(s);
  }
}
