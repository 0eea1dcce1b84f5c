// The few string operations of the host language that several components rely on.

module JsStrings {
  /** Strings of the host language are sequences of UTF-16 code units. */
  type CodeUnit = u: int | 0 <= u < 0x1_0000

  type JsString = seq<CodeUnit>

  const NEWLINE: CodeUnit := 0x0A

  /** White space and line terminators, which `trim` removes at both ends. */
  predicate IsSpace(u: CodeUnit) {
    || 0x09 <= u <= 0x0D || u == 0x20 || u == 0xA0 || u == 0x1680 || 0x2000 <= u <= 0x200A
    || u == 0x2028 || u == 0x2029 || u == 0x202F || u == 0x205F || u == 0x3000 || u == 0xFEFF
  }

  function TrimStart(s: JsString): (r: JsString)
    ensures r != [] ==> !IsSpace(r[0])
    ensures |r| <= |s|
  {
    if s != [] && IsSpace(s[0]) then TrimStart(s[1..]) else s
  }

  function TrimEnd(s: JsString): (r: JsString)
    ensures r != [] ==> !IsSpace(r[|r| - 1])
    ensures r <= s
  {
    if s != [] && IsSpace(s[|s| - 1]) then TrimEnd(s[..|s| - 1]) else s
  }

  function Trim(s: JsString): JsString {
    TrimEnd(TrimStart(s))
  }

  /** `a` occurs in `b` as a stretch of consecutive code units, starting at i. */
  predicate OccursAt(b: JsString, a: JsString, i: nat) {
    i + |a| <= |b| && b[i..i + |a|] == a
  }

  ghost predicate Contains(b: JsString, a: JsString) {
    exists i: nat :: OccursAt(b, a, i)
  }

  predicate AllSpace(s: JsString) {
    forall i | 0 <= i < |s| :: IsSpace(s[i])
  }

  lemma {:induction false} TrimStartDrops(s: JsString) returns (front: JsString)
    ensures AllSpace(front) && front + TrimStart(s) == s
    decreases |s|
  {
    if s != [] && IsSpace(s[0]) {
      var rest := TrimStartDrops(s[1..]);
      front := [s[0]] + rest;
      assert front + TrimStart(s) == [s[0]] + (rest + TrimStart(s[1..]));
    } else {
      front := [];
    }
  }

  lemma {:induction false} TrimEndDrops(s: JsString) returns (back: JsString)
    ensures AllSpace(back) && TrimEnd(s) + back == s
    decreases |s|
  {
    if s != [] && IsSpace(s[|s| - 1]) {
      var rest := TrimEndDrops(s[..|s| - 1]);
      back := rest + [s[|s| - 1]];
      assert TrimEnd(s) + back == (TrimEnd(s[..|s| - 1]) + rest) + [s[|s| - 1]];
    } else {
      back := [];
    }
  }

  /** Trimming takes white space off both ends, all of it, and nothing else. */
  lemma TrimExactly(s: JsString) returns (front: JsString, back: JsString)
    ensures s == front + Trim(s) + back && AllSpace(front) && AllSpace(back)
    ensures Trim(s) != [] ==> !IsSpace(Trim(s)[0]) && !IsSpace(Trim(s)[|Trim(s)| - 1])
    ensures Trim(s) == [] <==> AllSpace(s)
  {
    front := TrimStartDrops(s);
    back := TrimEndDrops(TrimStart(s));
    var inside := Trim(s);
    assert s == front + (inside + back);
    if inside != [] {
      assert inside[0] == TrimStart(s)[0];
      assert s[|front|] == inside[0];
    }
  }

  /** Of the ASCII characters exactly tab, line feed, vertical tab, form feed, carriage return and blank are space. */
  lemma AsciiSpaces(u: CodeUnit)
    requires u < 0x80
    ensures IsSpace(u) <==> u == 9 || u == 10 || u == 11 || u == 12 || u == 13 || u == 32
  {}
}
