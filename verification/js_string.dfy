/**
 * The four `String.prototype` operations the normaliser calls, on a modelled
 * alphabet rather than the full Unicode tables of a JavaScript runtime:
 *
 *  - `toLowerCase`: one character to one character; upper-case ASCII, the
 *    upper-case letters of Latin-1, and every upper-case letter of the
 *    Vietnamese alphabet are lowered, every other character is kept.
 *  - `normalize("NFD")`: full canonical decomposition of the Latin-1 letters
 *    that have one; every other character is kept.
 *  - `trim`: removes the ECMAScript WhiteSpace and LineTerminator characters at
 *    both ends (this set is modelled exactly).
 *  - `includes`: contiguous containment; the empty string is in every string.
 */
module JsString {

  // ---------------------------------------------------------------- toLowerCase

  /** Lower-case mapping of one character on the modelled alphabet. */
  function LowerChar(c: char): (r: char)
    ensures c < 'A' ==> r == c
  {
    if 'A' <= c <= 'Z' then (c as int + 0x20) as char
    // Latin-1 capitals À..Þ, except the multiplication sign
    else if '\U{00C0}' <= c <= '\U{00DE}' && c != '\U{00D7}' then (c as int + 0x20) as char
    // Ă Đ Ĩ Ũ Ơ Ư: their lower-case forms follow them directly
    else if c in {'\U{0102}', '\U{0110}', '\U{0128}', '\U{0168}', '\U{01A0}', '\U{01AF}'} then (c as int + 1) as char
    // Latin Extended Additional Ạ..Ỹ: capitals at even code points, lower case at the next one
    else if '\U{1EA0}' <= c <= '\U{1EF8}' && c as int % 2 == 0 then (c as int + 1) as char
    else c
  }

  /** Lower-casing a lower-case character changes nothing. */
  lemma LowerCharIdempotent(c: char)
    ensures LowerChar(LowerChar(c)) == LowerChar(c)
  {
  }

  /** `s.toLowerCase()` */
  function ToLower(s: string): (r: string)
    ensures |r| == |s|
    ensures forall i :: 0 <= i < |s| ==> r[i] == LowerChar(s[i])
  {
    seq(|s|, i requires 0 <= i < |s| => LowerChar(s[i]))
  }

  /** Lower-casing is idempotent, and it commutes with taking a slice. */
  lemma ToLowerIdempotent(s: string)
    ensures ToLower(ToLower(s)) == ToLower(s)
  {
  }

  /** Text that is already lower case is left alone. */
  lemma ToLowerFixes(s: string)
    requires forall x :: x in s ==> LowerChar(x) == x
    ensures ToLower(s) == s
  {
  }

  lemma ToLowerSlice(s: string, i: nat, j: nat)
    requires i <= j <= |s|
    ensures ToLower(s[i..j]) == ToLower(s)[i..j]
  {
  }

  // ---------------------------------------------------------- normalize("NFD")

  const CombiningGrave      := '\U{0300}'
  const CombiningAcute      := '\U{0301}'
  const CombiningCircumflex := '\U{0302}'
  const CombiningTilde      := '\U{0303}'
  const CombiningDiaeresis  := '\U{0308}'
  const CombiningRingAbove  := '\U{030A}'
  const CombiningCedilla    := '\U{0327}'

  predicate IsAsciiLetter(c: char) {
    'A' <= c <= 'Z' || 'a' <= c <= 'z'
  }

  /** The Combining Diacritical Marks block, U+0300..U+036F. */
  predicate IsCombiningMark(c: char) {
    '\U{0300}' <= c <= '\U{036F}'
  }

  /** The Latin-1 letters that have a canonical decomposition: all of U+00C0..U+00FF
      except Æ Ð × Ø Þ ß æ ð ÷ ø þ. */
  predicate HasDecomposition(c: char) {
    '\U{00C0}' <= c <= '\U{00FF}' &&
    c !in {'Æ', 'Ð', '×', 'Ø', 'Þ', 'ß', 'æ', 'ð', '÷', 'ø', 'þ'}
  }

  /** Position of a Latin-1 letter in its case block: À..ß and à..ÿ share one layout. */
  function Latin1Column(c: char): int
    requires '\U{00C0}' <= c <= '\U{00FF}'
  {
    (c as int - 0xC0) % 0x20
  }

  /** The base letter of a decomposable Latin-1 letter, in the letter's own case. */
  function Latin1Base(c: char): (r: char)
    requires HasDecomposition(c)
    ensures IsAsciiLetter(r)
    ensures c >= '\U{00E0}' ==> 'a' <= r <= 'z'
  {
    var col := Latin1Column(c);
    var upper :=
      if col <= 5 then 'A'
      else if col == 7 then 'C'
      else if col <= 11 then 'E'
      else if col <= 15 then 'I'
      else if col == 17 then 'N'
      else if col <= 22 then 'O'
      else if col <= 28 then 'U'
      else 'Y';
    if c < '\U{00E0}' then upper else (upper as int + 0x20) as char
  }

  /** The combining mark of a decomposable Latin-1 letter. */
  function Latin1Mark(c: char): (r: char)
    requires HasDecomposition(c)
    ensures IsCombiningMark(r)
  {
    var col := Latin1Column(c);
    if col in {0, 8, 12, 18, 25} then CombiningGrave
    else if col in {1, 9, 13, 19, 26, 29} then CombiningAcute
    else if col in {2, 10, 14, 20, 27} then CombiningCircumflex
    else if col in {3, 17, 21} then CombiningTilde
    else if col == 5 then CombiningRingAbove
    else if col == 7 then CombiningCedilla
    else CombiningDiaeresis
  }

  /** Canonical decomposition of one character: a decomposable Latin-1 letter becomes
      its base letter followed by one combining mark; every other character is kept. */
  function Decompose(c: char): (r: seq<char>)
    ensures !HasDecomposition(c) ==> r == [c]
    ensures HasDecomposition(c) ==> |r| == 2 && IsAsciiLetter(r[0]) && IsCombiningMark(r[1])
    ensures HasDecomposition(c) && LowerChar(c) == c ==> 'a' <= r[0] <= 'z'
  {
    if HasDecomposition(c) then [Latin1Base(c), Latin1Mark(c)] else [c]
  }

  /** A few entries of the Unicode decomposition table, as the model computes them. */
  lemma DecomposeExamples()
    ensures Decompose('É') == ['E', CombiningAcute]
    ensures Decompose('ç') == ['c', CombiningCedilla]
    ensures Decompose('ñ') == ['n', CombiningTilde]
    ensures Decompose('ÿ') == ['y', CombiningDiaeresis]
    ensures Decompose('ø') == ['ø']
  {
  }

  /** `s.normalize("NFD")` */
  function Nfd(s: string): (r: string)
    ensures |s| <= |r| <= 2 * |s|
  {
    if s == [] then [] else Decompose(s[0]) + Nfd(s[1..])
  }

  /** NFD works character by character, so it distributes over concatenation. */
  lemma {:induction false} NfdConcat(a: string, b: string)
    ensures Nfd(a + b) == Nfd(a) + Nfd(b)
  {
    if a != [] {
      assert (a + b)[1..] == a[1..] + b;
      NfdConcat(a[1..], b);
    } else {
      assert a + b == b;
    }
  }

  /** Every character of an NFD result is either kept from the input or is an ASCII base
      letter or a combining mark, and none of them decomposes further. */
  lemma {:induction false} NfdAlphabet(s: string)
    ensures forall x :: x in Nfd(s) ==> !HasDecomposition(x)
    ensures forall x :: x in Nfd(s) ==> x in s || IsAsciiLetter(x) || IsCombiningMark(x)
  {
    if s != [] {
      NfdAlphabet(s[1..]);
      assert forall x :: x in s[1..] ==> x in s;
      var head := Decompose(s[0]);
      assert Nfd(s) == head + Nfd(s[1..]);
    }
  }

  /** Decomposing lower-case text yields lower-case text. */
  lemma {:induction false} NfdKeepsLowerCase(s: string)
    requires forall x :: x in s ==> LowerChar(x) == x
    ensures forall x :: x in Nfd(s) ==> LowerChar(x) == x
  {
    if s != [] {
      assert forall x :: x in s[1..] ==> x in s;
      NfdKeepsLowerCase(s[1..]);
      var head := Decompose(s[0]);
      assert Nfd(s) == head + Nfd(s[1..]);
    }
  }

  /** A string that is already decomposed is its own NFD. */
  lemma {:induction false} NfdOfDecomposed(s: string)
    requires forall x :: x in s ==> !HasDecomposition(x)
    ensures Nfd(s) == s
  {
    if s != [] {
      assert forall x :: x in s[1..] ==> x in s;
      NfdOfDecomposed(s[1..]);
      assert s == [s[0]] + s[1..];
    }
  }

  // ------------------------------------------------------------------------ trim

  /** ECMAScript WhiteSpace and LineTerminator code points. */
  predicate IsJsWhitespace(c: char) {
    // tab, line tabulation, form feed, line feed, carriage return
    '\t' <= c <= '\r' || c == ' ' || c == '\U{00A0}' || c == '\U{1680}' ||
    // the spaces U+2000..U+200A, the line and paragraph separators
    '\U{2000}' <= c <= '\U{200A}' || c == '\U{2028}' || c == '\U{2029}' ||
    c == '\U{202F}' || c == '\U{205F}' || c == '\U{3000}' || c == '\U{FEFF}'
  }

  /** `s.trimStart()`: the suffix that starts at the first non-whitespace character. */
  function TrimStart(s: string): (r: string)
    ensures |r| <= |s| && r == s[|s| - |r|..]
    ensures forall i :: 0 <= i < |s| - |r| ==> IsJsWhitespace(s[i])
    ensures r == [] || !IsJsWhitespace(r[0])
  {
    if s != [] && IsJsWhitespace(s[0]) then TrimStart(s[1..]) else s
  }

  /** `s.trimEnd()`: the prefix that ends at the last non-whitespace character. */
  function TrimEnd(s: string): (r: string)
    ensures |r| <= |s| && r == s[..|r|]
    ensures forall i :: |r| <= i < |s| ==> IsJsWhitespace(s[i])
    ensures r == [] || !IsJsWhitespace(r[|r| - 1])
  {
    if s != [] && IsJsWhitespace(s[|s| - 1]) then TrimEnd(s[..|s| - 1]) else s
  }

  /** `r` is the slice `s[a..b]` for some bounds outside of which `s` holds only whitespace. */
  ghost predicate DropsOnlyWhitespace(r: string, s: string) {
    exists a, b :: 0 <= a <= b <= |s| && r == s[a..b] &&
      (forall i :: 0 <= i < a ==> IsJsWhitespace(s[i])) &&
      (forall i :: b <= i < |s| ==> IsJsWhitespace(s[i]))
  }

  /** `s.trim()`: a slice of `s` that drops only whitespace, and all of it, at both ends. */
  function Trim(s: string): (r: string)
    ensures DropsOnlyWhitespace(r, s)
    ensures r == [] || (!IsJsWhitespace(r[0]) && !IsJsWhitespace(r[|r| - 1]))
  {
    TrimSlice(s);
    TrimStart(TrimEnd(s))
  }

  /** Trimming the end and then the start keeps a slice with whitespace outside it. */
  lemma TrimSlice(s: string)
    ensures DropsOnlyWhitespace(TrimStart(TrimEnd(s)), s)
    ensures var r := TrimStart(TrimEnd(s));
              r == [] || (!IsJsWhitespace(r[0]) && !IsJsWhitespace(r[|r| - 1]))
  {
    var e := TrimEnd(s);
    var r := TrimStart(e);
    var a, b := |e| - |r|, |e|;
    assert e == s[..b] && r == e[a..];
    if r != [] {
      assert r[|r| - 1] == e[|e| - 1];
    }
    forall i | 0 <= i < a
      ensures IsJsWhitespace(s[i])
    {
      assert s[i] == e[i];
    }
    assert r == s[a..b];
  }

  /** Trimming introduces no character that was not in the input. */
  lemma TrimKeepsChars(s: string)
    ensures forall x :: x in Trim(s) ==> x in s
    ensures forall i :: 0 <= i < |Trim(s)| ==> Trim(s)[i] in s
  {
    var e := TrimEnd(s);
    assert forall x :: x in TrimStart(e) ==> x in e;
  }

  /** Trimming a string that has no whitespace at either end changes nothing. */
  lemma TrimOfTrimmed(s: string)
    requires s == [] || (!IsJsWhitespace(s[0]) && !IsJsWhitespace(s[|s| - 1]))
    ensures Trim(s) == s
  {
  }

  // -------------------------------------------------------------------- includes

  /** `q` occurs in `t` starting at index `i`. */
  ghost predicate OccursAt(q: string, t: string, i: int) {
    0 <= i <= |t| - |q| && t[i..i + |q|] == q
  }

  /** `q` occurs in `t` as a contiguous block. */
  ghost predicate IsSubstring(q: string, t: string) {
    exists i :: OccursAt(q, t, i)
  }

  /** `t.includes(q)`: scans the start positions of `t` from the left. */
  function Includes(t: string, q: string): (b: bool)
    ensures b <==> IsSubstring(q, t)
    decreases |t|
  {
    if |q| > |t| then false
    else if t[..|q|] == q then
      assert OccursAt(q, t, 0);
      true
    else
      IncludesStep(t, q);
      Includes(t[1..], q)
  }

  /** When `q` is not a prefix of `t`, it occurs in `t` exactly when it occurs in `t[1..]`. */
  lemma IncludesStep(t: string, q: string)
    requires |q| <= |t| && t[..|q|] != q
    ensures IsSubstring(q, t) <==> IsSubstring(q, t[1..])
  {
    if IsSubstring(q, t) {
      var i :| OccursAt(q, t, i);
      assert i != 0;
      assert t[1..][i - 1..i - 1 + |q|] == q;
      assert OccursAt(q, t[1..], i - 1);
    }
    if IsSubstring(q, t[1..]) {
      var i :| OccursAt(q, t[1..], i);
      assert t[i + 1..i + 1 + |q|] == q;
      assert OccursAt(q, t, i + 1);
    }
  }
}
