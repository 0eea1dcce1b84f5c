// Slugs: lower-case, collapse what is not allowed, trim, and fall back to a hash.

module Slug {
  /** Code points, a surrogate without partner counting as one. */
  type CodePoint = u: int | 0 <= u < 0x11_0000

  type Text = seq<CodePoint>

  const HYPHEN: CodePoint := 0x2D

  /**
   * What the language's Unicode tables contribute: which code points belong to the Han,
   * Hiragana, Katakana and Hangul scripts, and how a text is lower-cased.
   */
  datatype Tables = Tables(isScript: CodePoint -> bool, lower: Text -> Text)

  predicate Kept(tables: Tables, c: CodePoint) {
    0x61 <= c <= 0x7A || 0x30 <= c <= 0x39 || tables.isScript(c)
  }

  /** No ASCII character is of those scripts, and text that may stand in a slug has no upper case. */
  ghost predicate Plausible(tables: Tables) {
    && (forall c: CodePoint | c < 0x80 :: !tables.isScript(c))
    && (forall s: Text | (forall c | c in s :: Kept(tables, c) || c == HYPHEN) :: tables.lower(s) == s)
  }

  /** Replaces every run of characters that are not kept by one hyphen. */
  function Collapse(tables: Tables, s: Text, inRun: bool): Text {
    if s == [] then []
    else if Kept(tables, s[0]) then [s[0]] + Collapse(tables, s[1..], false)
    else (if inRun then [] else [HYPHEN]) + Collapse(tables, s[1..], true)
  }

  function DropLeading(s: Text): Text {
    if s != [] && s[0] == HYPHEN then s[1..] else s
  }

  function DropTrailing(s: Text): Text {
    if s != [] && s[|s| - 1] == HYPHEN then s[..|s| - 1] else s
  }

  // ----- The fallback hash ---------------------------------------------------------------

  const TWO_TO_32: int := 0x1_0000_0000

  /** The UTF-16 code units of a text. */
  function Units(s: Text): seq<nat> {
    if s == [] then []
    else (if s[0] < 0x1_0000 then [s[0]]
          else [0xD800 + (s[0] - 0x1_0000) / 0x400, 0xDC00 + (s[0] - 0x1_0000) % 0x400]) + Units(s[1..])
  }

  function Pow31(n: nat): nat {
    if n == 0 then 1 else 31 * Pow31(n - 1)
  }

  /** The polynomial in 31 whose leading coefficient is the first unit. */
  function Polynomial(units: seq<nat>): nat {
    if units == [] then 0 else units[0] * Pow31(|units| - 1) + Polynomial(units[1..])
  }

  lemma {:induction false} PolynomialAppend(units: seq<nat>, u: nat)
    ensures Polynomial(units + [u]) == 31 * Polynomial(units) + u
  {
    if units == [] {
      assert Polynomial([u]) == u * Pow31(0) + Polynomial([u][1..]);
    } else {
      PolynomialAppend(units[1..], u);
      assert (units + [u])[1..] == units[1..] + [u];
      var p, n := units[0], |units| - 1;
      assert p * Pow31(n + 1) == 31 * (p * Pow31(n)) by {
        assert Pow31(n + 1) == 31 * Pow31(n);
      }
    }
  }

  /** Conversion to a signed 32-bit integer, as the bit operators do. */
  function ToInt32(x: int): int {
    (x + TWO_TO_32 / 2) % TWO_TO_32 - TWO_TO_32 / 2
  }

  function ToUint32(x: int): int {
    x % TWO_TO_32
  }

  lemma Int32IsCongruent(x: int)
    ensures ToInt32(x) == x - TWO_TO_32 * ((x + TWO_TO_32 / 2) / TWO_TO_32)
  {}

  lemma RemainderOf(x: int, y: int, q: int)
    requires x == y - TWO_TO_32 * q
    ensures x % TWO_TO_32 == y % TWO_TO_32
  {
    assert y == x + TWO_TO_32 * q;
    var d, m := x / TWO_TO_32, x % TWO_TO_32;
    assert y == TWO_TO_32 * (d + q) + m && 0 <= m < TWO_TO_32;
    assert y / TWO_TO_32 == d + q;
  }

  /** The loop with its 32-bit wrap-around computes the polynomial modulo 2 to the 32. */
  method FallbackHash(units: seq<nat>) returns (hash: nat)
    ensures hash == Polynomial(units) % TWO_TO_32
  {
    var h := 0;
    ghost var wraps := 0;
    for i := 0 to |units|
      invariant h == Polynomial(units[..i]) - TWO_TO_32 * wraps
    {
      assert units[..i + 1] == units[..i] + [units[i]];
      PolynomialAppend(units[..i], units[i]);
      var shifted := ToInt32(h * 32);
      var next := ToInt32(shifted - h + units[i]);
      Int32IsCongruent(h * 32);
      Int32IsCongruent(shifted - h + units[i]);
      wraps := 31 * wraps + (h * 32 + TWO_TO_32 / 2) / TWO_TO_32
               + (shifted - h + units[i] + TWO_TO_32 / 2) / TWO_TO_32;
      h := next;
    }
    assert units[..|units|] == units;
    RemainderOf(h, Polynomial(units), wraps);
    hash := ToUint32(h);
  }

  function HexDigit(d: nat): CodePoint
    requires d < 16
  {
    if d < 10 then 0x30 + d else 0x61 + d - 10
  }

  function Hex(n: nat): Text {
    if n < 16 then [HexDigit(n)] else Hex(n / 16) + [HexDigit(n % 16)]
  }

  function Fallback(name: Text): Text {
    [0x69, 0x64, HYPHEN] + Hex(Polynomial(Units(name)) % TWO_TO_32)
  }

  function Trimmed(tables: Tables, name: Text): Text {
    DropTrailing(DropLeading(Collapse(tables, tables.lower(name), false)))
  }

  function Slugify(tables: Tables, name: Text): Text {
    if Trimmed(tables, name) != [] then Trimmed(tables, name) else Fallback(name)
  }

  method ComputeSlug(tables: Tables, name: Text) returns (slug: Text)
    ensures slug == Slugify(tables, name)
  {
    slug := DropTrailing(DropLeading(Collapse(tables, tables.lower(name), false)));
    if slug == [] {
      var hash := FallbackHash(Units(name));
      slug := [0x69, 0x64, HYPHEN] + Hex(hash);
    }
  }

  // ----- What a slug looks like --------------------------------------------------------------

  /** Kept characters and single hyphens; `afterHyphen` says that one went before. */
  ghost predicate Collapsed(tables: Tables, s: Text) {
    && (forall c | c in s :: Kept(tables, c) || c == HYPHEN)
    && (forall i | 0 <= i < |s| - 1 :: !(s[i] == HYPHEN && s[i + 1] == HYPHEN))
  }

  ghost predicate IsSlug(tables: Tables, s: Text) {
    s != [] && Collapsed(tables, s) && s[0] != HYPHEN && s[|s| - 1] != HYPHEN
  }

  lemma {:induction false} CollapseIsCollapsed(tables: Tables, s: Text, inRun: bool)
    requires Plausible(tables)
    ensures var r := Collapse(tables, s, inRun);
      Collapsed(tables, r) && (inRun && r != [] ==> r[0] != HYPHEN)
  {
    if s != [] {
      CollapseIsCollapsed(tables, s[1..], !Kept(tables, s[0]));
    }
  }

  lemma {:induction false} CollapseOfCollapsed(tables: Tables, s: Text, inRun: bool)
    requires Plausible(tables) && Collapsed(tables, s) && (inRun && s != [] ==> s[0] != HYPHEN)
    ensures Collapse(tables, s, inRun) == s
  {
    if s != [] {
      assert forall i | 0 <= i < |s| - 1 :: s[1..][i] == s[i + 1];
      assert Collapsed(tables, s[1..]);
      CollapseOfCollapsed(tables, s[1..], s[0] == HYPHEN);
    }
  }

  lemma {:induction false} HexIsKept(tables: Tables, n: nat)
    ensures Hex(n) != [] && forall c | c in Hex(n) :: Kept(tables, c) && c != HYPHEN
  {
    if n >= 16 {
      HexIsKept(tables, n / 16);
    }
  }

  /** A slug is never empty and has no leading, trailing or doubled hyphen. */
  lemma SlugIsClean(tables: Tables, name: Text)
    requires Plausible(tables)
    ensures IsSlug(tables, Slugify(tables, name))
  {
    var r := Collapse(tables, tables.lower(name), false);
    CollapseIsCollapsed(tables, tables.lower(name), false);
    if Trimmed(tables, name) != [] {
      TrimKeepsCollapsed(tables, r);
    } else {
      var hex := Hex(Polynomial(Units(name)) % TWO_TO_32);
      HexIsKept(tables, Polynomial(Units(name)) % TWO_TO_32);
      assert forall k | 0 <= k < |hex| :: hex[k] in hex && hex[k] != HYPHEN;
      assert forall i | 3 <= i < |hex| + 3 :: Fallback(name)[i] == hex[i - 3];
      assert forall i | 3 <= i < |hex| + 3 :: Fallback(name)[i] != HYPHEN;
    }
  }

  lemma TrimKeepsCollapsed(tables: Tables, s: Text)
    requires Collapsed(tables, s)
    ensures var t := DropTrailing(DropLeading(s)); t != [] ==> IsSlug(tables, t)
  {
    var u := DropLeading(s);
    assert forall i | 0 <= i < |u| :: u[i] == s[i + |s| - |u|];
    var t := DropTrailing(u);
    assert forall i | 0 <= i < |t| :: t[i] == u[i];
  }

  /** The texts that are their own slug are exactly the clean ones. */
  lemma SlugOfSlug(tables: Tables, s: Text)
    requires Plausible(tables)
    ensures Slugify(tables, s) == s <==> IsSlug(tables, s)
  {
    SlugIsClean(tables, s);
    if IsSlug(tables, s) {
      CollapseOfCollapsed(tables, s, false);
    }
  }

  lemma SlugifyIsIdempotent(tables: Tables, name: Text)
    requires Plausible(tables)
    ensures Slugify(tables, Slugify(tables, name)) == Slugify(tables, name)
  {
    SlugIsClean(tables, name);
    SlugOfSlug(tables, Slugify(tables, name));
  }

  // ----- What a slug says --------------------------------------------------------------------

  /** The stretches of kept characters, as long as they go. */
  function Words(tables: Tables, s: Text): seq<Text> {
    if s == [] then []
    else
      var rest := Words(tables, s[1..]);
      if !Kept(tables, s[0]) then rest
      else if |s| > 1 && Kept(tables, s[1]) && rest != [] then [[s[0]] + rest[0]] + rest[1..]
      else [[s[0]]] + rest
  }

  function Hyphenated(words: seq<Text>): Text
    decreases |words|, 0
  {
    if words == [] then [] else words[0] + Rest(words[1..])
  }

  /** What follows the first word. */
  function Rest(words: seq<Text>): Text
    decreases |words|, 1
  {
    if words == [] then [] else [HYPHEN] + Hyphenated(words)
  }

  /** Of the ASCII characters exactly digits and lower-case letters are kept, of all others those of the four scripts. */
  lemma KeptExactly(tables: Tables, c: CodePoint)
    requires Plausible(tables)
    ensures c < 0x80 ==> (Kept(tables, c) <==> '0' as int <= c <= '9' as int || 'a' as int <= c <= 'z' as int)
    ensures c >= 0x80 ==> (Kept(tables, c) <==> tables.isScript(c))
  {}

  /** What a run that is not kept leaves at the end. */
  function Trailing(tables: Tables, s: Text): Text {
    if Words(tables, s) != [] && !Kept(tables, s[|s| - 1]) then [HYPHEN] else []
  }

  function Leading(tables: Tables, s: Text): Text {
    if s != [] && !Kept(tables, s[0]) then [HYPHEN] else []
  }

  lemma {:induction false} WordsOfKept(tables: Tables, s: Text)
    ensures Words(tables, s) == [] <==> forall i | 0 <= i < |s| :: !Kept(tables, s[i])
    decreases |s|
  {
    if s != [] {
      WordsOfKept(tables, s[1..]);
      if !Kept(tables, s[0]) && Words(tables, s) == [] {
        forall i | 0 <= i < |s| ensures !Kept(tables, s[i]) {
          assert i > 0 ==> s[i] == s[1..][i - 1];
        }
      }
      assert forall i | 0 <= i < |s| - 1 :: s[1..][i] == s[i + 1];
    }
  }

  lemma CollapseOutsideRun(tables: Tables, s: Text)
    ensures Collapse(tables, s, false) == Leading(tables, s) + Collapse(tables, s, true)
  {}

  lemma HyphenatedLonger(c: CodePoint, words: seq<Text>)
    requires words != []
    ensures Hyphenated([[c] + words[0]] + words[1..]) == [c] + Hyphenated(words)
  {
    var longer := [[c] + words[0]] + words[1..];
    assert longer[1..] == words[1..];
    assert ([c] + words[0]) + Rest(words[1..]) == [c] + (words[0] + Rest(words[1..]));
  }

  lemma HyphenatedMore(c: CodePoint, words: seq<Text>)
    ensures Hyphenated([[c]] + words) == [c] + if words == [] then [] else [HYPHEN] + Hyphenated(words)
  {
    assert ([[c]] + words)[1..] == words;
  }

  /** Collapsing, after a run that is not kept, joins the words and leaves a hyphen where the text ends in such a run. */
  lemma {:induction false} CollapseJoinsWords(tables: Tables, s: Text)
    ensures Collapse(tables, s, true) == Hyphenated(Words(tables, s)) + Trailing(tables, s)
    decreases |s|
  {
    if s != [] {
      CollapseJoinsWords(tables, s[1..]);
      WordsOfKept(tables, s[1..]);
      if Kept(tables, s[0]) {
        KeptInFront(tables, s);
      } else {
        assert |s| > 1 ==> s[1..][|s| - 2] == s[|s| - 1];
      }
    }
  }

  lemma KeptInFront(tables: Tables, s: Text)
    requires s != [] && Kept(tables, s[0])
    requires Collapse(tables, s[1..], true) == Hyphenated(Words(tables, s[1..])) + Trailing(tables, s[1..])
    requires Words(tables, s[1..]) == [] <==> forall i | 0 <= i < |s[1..]| :: !Kept(tables, s[1..][i])
    ensures Collapse(tables, s, true) == Hyphenated(Words(tables, s)) + Trailing(tables, s)
  {
    var rest, c := s[1..], s[0];
    var words := Words(tables, rest);
    CollapseOutsideRun(tables, rest);
    assert Collapse(tables, s, true) == [c] + (Leading(tables, rest) + (Hyphenated(words) + Trailing(tables, rest)));
    if rest == [] {
      assert Hyphenated(Words(tables, s)) == [c];
    } else if Kept(tables, rest[0]) {
      assert words != [] && Words(tables, s) == [[c] + words[0]] + words[1..];
      HyphenatedLonger(c, words);
      assert rest[|rest| - 1] == s[|s| - 1];
    } else {
      assert Words(tables, s) == [[c]] + words;
      HyphenatedMore(c, words);
      assert rest[|rest| - 1] == s[|s| - 1];
    }
  }

  lemma {:induction false} HyphenatedEnds(tables: Tables, s: Text)
    requires Plausible(tables) && Words(tables, s) != []
    ensures var h := Hyphenated(Words(tables, s));
      h != [] && Kept(tables, h[0]) && Kept(tables, h[|h| - 1])
    decreases |s|
  {
    var rest, c := s[1..], s[0];
    var words := Words(tables, rest);
    if words != [] {
      HyphenatedEnds(tables, rest);
    }
    if Kept(tables, c) {
      if |s| > 1 && Kept(tables, s[1]) && words != [] {
        HyphenatedLonger(c, words);
      } else {
        HyphenatedMore(c, words);
      }
    }
  }

  /** Before the fallback, a slug is the lower-cased name's words with one hyphen between any two. */
  lemma TrimmedJoinsWords(tables: Tables, name: Text)
    requires Plausible(tables)
    ensures Trimmed(tables, name) == Hyphenated(Words(tables, tables.lower(name)))
  {
    var s := tables.lower(name);
    var h := Hyphenated(Words(tables, s));
    CollapseOutsideRun(tables, s);
    CollapseJoinsWords(tables, s);
    if h == [] {
      if Words(tables, s) != [] {
        HyphenatedEnds(tables, s);
      }
    } else {
      HyphenatedEnds(tables, s);
      var collapsed := Leading(tables, s) + (h + Trailing(tables, s));
      assert collapsed == Collapse(tables, s, false);
      assert DropLeading(collapsed) == h + Trailing(tables, s);
      assert DropTrailing(h + Trailing(tables, s)) == h;
    }
  }

  /** The slug, exactly: the words of the lower-cased name if it has any, else the fallback. */
  lemma SlugExactly(tables: Tables, name: Text)
    requires Plausible(tables)
    ensures var words := Words(tables, tables.lower(name));
      Slugify(tables, name) == if words != [] then Hyphenated(words) else Fallback(name)
  {
    TrimmedJoinsWords(tables, name);
    if Words(tables, tables.lower(name)) != [] {
      HyphenatedEnds(tables, tables.lower(name));
    }
  }

  // ----- What the fallback says -----------------------------------------------------------------

  function DigitValue(c: CodePoint): int {
    if c <= 0x39 then c - 0x30 else c - 0x61 + 10
  }

  function HexValue(s: Text): int {
    if s == [] then 0 else 16 * HexValue(s[..|s| - 1]) + DigitValue(s[|s| - 1])
  }

  lemma {:induction false} HexReadsBack(n: nat)
    ensures HexValue(Hex(n)) == n && Hex(n) != [] && (n > 0 ==> Hex(n)[0] != 0x30)
    ensures forall c | c in Hex(n) :: 0x30 <= c <= 0x39 || 0x61 <= c <= 0x66
  {
    if n < 16 {
      assert [HexDigit(n)][..0] == [];
      assert HexValue([]) == 0;
    } else {
      HexReadsBack(n / 16);
      assert (Hex(n / 16) + [HexDigit(n % 16)])[..|Hex(n / 16)|] == Hex(n / 16);
    }
  }

  /** The fallback is "id-" and the hash in lower-case hexadecimal digits without leading zeros. */
  lemma FallbackReadsBack(name: Text)
    ensures var s := Fallback(name);
      && |s| > 3 && s[0] == 0x69 && s[1] == 0x64 && s[2] == 0x2D
      && HexValue(s[3..]) == Polynomial(Units(name)) % 0x1_0000_0000
      && (s[3] == 0x30 ==> Polynomial(Units(name)) % 0x1_0000_0000 == 0)
      && forall i | 3 <= i < |s| :: 0x30 <= s[i] <= 0x39 || 0x61 <= s[i] <= 0x66
  {
    var h := Hex(Polynomial(Units(name)) % TWO_TO_32);
    HexReadsBack(Polynomial(Units(name)) % TWO_TO_32);
    assert Fallback(name)[3..] == h;
    assert forall i | 0 <= i < |h| :: h[i] in h;
  }

  /** A code point above the basic plane becomes a high and a low surrogate that stand for it; any other is itself. */
  lemma UnitsReadBack(c: CodePoint, rest: Text) returns (high: nat, low: nat)
    ensures c < 0x1_0000 ==> Units([c] + rest) == [c] + Units(rest)
    ensures c >= 0x1_0000 ==>
              && Units([c] + rest) == [high, low] + Units(rest)
              && 0xD800 <= high <= 0xDBFF && 0xDC00 <= low <= 0xDFFF
              && c == 0x1_0000 + (high - 0xD800) * 0x400 + (low - 0xDC00)
  {
    assert ([c] + rest)[1..] == rest;
    high, low := 0, 0;
    if c >= 0x1_0000 {
      high, low := 0xD800 + (c - 0x1_0000) / 0x400, 0xDC00 + (c - 0x1_0000) % 0x400;
    }
  }
}
